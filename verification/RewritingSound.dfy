/** Distribution, expansion and the structural rewrites preserve every value. */
module RewritingSound {
  import opened Wrappers
  import opened Expressions
  import opened RealFacts
  import opened Powers
  import opened ValueAlgebra
  import opened Simplification
  import opened SimplificationSound
  import opened Rewriting

  // ----- distribute -----

  lemma DistributeProductRefines(m: Lib, env: Env, a: Expr, b: Expr)
    ensures Refines(m, env, Mul(a, b), DistributeProduct(a, b))
  {
    if (a.Add? || a.Sub?) && (b.Add? || b.Sub?) {
      DistributeSumsRefines(m, env, a, b);
    } else {
      var av, bv := Strict(m, env, a), Strict(m, env, b);
      match (a, b)
      case (_, Add(x, y)) => MulOverAdd(av, Strict(m, env, x), Strict(m, env, y));
      case (Add(u, v), _) => MulOverAdd(bv, Strict(m, env, u), Strict(m, env, v));
      case (_, Sub(x, y)) => MulOverSub(av, Strict(m, env, x), Strict(m, env, y));
      case (Sub(u, v), _) => MulOverSub(bv, Strict(m, env, u), Strict(m, env, v));
      case _ =>
    }
  }

  lemma DistributeSumsRefines(m: Lib, env: Env, a: Expr, b: Expr)
    requires (a.Add? || a.Sub?) && (b.Add? || b.Sub?)
    ensures Refines(m, env, Mul(a, b), DistributeProduct(a, b))
  {
    var u, v, x, y := a.left, a.right, b.left, b.right;
    FourProducts(Strict(m, env, u), Strict(m, env, v), Strict(m, env, x), Strict(m, env, y));
    PairOfProducts(m, env, u, x, y);
    PairOfProducts(m, env, v, x, y);
    var two := Add(Mul(u, x), Mul(u, y));
    var three := Add(two, Mul(v, x));
    assert Strict(m, env, three) == AddValues(Strict(m, env, two), Strict(m, env, Mul(v, x)));
  }

  lemma PairOfProducts(m: Lib, env: Env, u: Expr, x: Expr, y: Expr)
    ensures var ux := MulValues(Strict(m, env, u), Strict(m, env, x));
            var uy := MulValues(Strict(m, env, u), Strict(m, env, y));
            && Strict(m, env, Add(Mul(u, x), Mul(u, y))) == AddValues(ux, uy)
            && Strict(m, env, Sub(Mul(u, x), Mul(u, y))) == SubValues(ux, uy)
  {
  }

  /** (u ± v) * (x ± y), for all four choices of signs. */
  lemma FourProducts(u: Value, v: Value, x: Value, y: Value)
    ensures
      var ux, uy, vx, vy := MulValues(u, x), MulValues(u, y), MulValues(v, x), MulValues(v, y);
      && MulValues(AddValues(u, v), AddValues(x, y)) == AddValues(AddValues(AddValues(ux, uy), vx), vy)
      && MulValues(SubValues(u, v), AddValues(x, y)) == SubValues(AddValues(ux, uy), AddValues(vx, vy))
      && MulValues(AddValues(u, v), SubValues(x, y)) == AddValues(SubValues(ux, uy), SubValues(vx, vy))
      && MulValues(SubValues(u, v), SubValues(x, y)) == SubValues(SubValues(ux, uy), SubValues(vx, vy))
  {
    MulOverAdd(AddValues(x, y), u, v); MulOverSub(AddValues(x, y), u, v);
    MulOverAdd(SubValues(x, y), u, v); MulOverSub(SubValues(x, y), u, v);
    MulOverAdd(u, x, y); MulOverAdd(v, x, y);
    MulOverSub(u, x, y); MulOverSub(v, x, y);
  }

  lemma {:induction false} DistributeRefines(m: Lib, env: Env, e: Expr)
    ensures Refines(m, env, e, Distribute(e))
  {
    match e
    case Mul(a, b) =>
      DistributeRefines(m, env, a); DistributeRefines(m, env, b);
      Congruence(m, env, a, b, Distribute(a), Distribute(b));
      DistributeProductRefines(m, env, Distribute(a), Distribute(b));
    case Add(a, b) =>
      DistributeRefines(m, env, a); DistributeRefines(m, env, b);
      Congruence(m, env, a, b, Distribute(a), Distribute(b));
    case Sub(a, b) =>
      DistributeRefines(m, env, a); DistributeRefines(m, env, b);
      Congruence(m, env, a, b, Distribute(a), Distribute(b));
    case Neg(a) =>
      DistributeRefines(m, env, a);
      UnaryCongruence(m, env, Abs, a, Distribute(a));
    case Fn(f, a) =>
      DistributeRefines(m, env, a);
      UnaryCongruence(m, env, f, a, Distribute(a));
    case _ =>
  }

  // ----- expand -----

  /** Multiplying out adds one to the exponent at every step. */
  lemma {:induction false} MultiplyOutValue(m: Lib, env: Env, product: Expr, base: Expr, b: real, j: nat, k: nat)
    requires Lawful(m)
    requires Strict(m, env, base) == Some(b) && Strict(m, env, product) == Some(NatPow(b, j))
    ensures Strict(m, env, MultiplyOut(m, product, base, k)) == Some(NatPow(b, j + k))
    decreases k
  {
    if k > 0 {
      var next := Mul(product, base);
      MulCommutes(Some(NatPow(b, j)), Some(b));
      assert Strict(m, env, next) == Some(NatPow(b, j + 1));
      DistributeRefines(m, env, next);
      SimplifyRefines(m, env, Distribute(next));
      MultiplyOutValue(m, env, Simplify(m, Distribute(next)), base, b, j + 1, k - 1);
    }
  }

  lemma ExpandPowerRefines(m: Lib, env: Env, b: Expr, n: real)
    requires Lawful(m) && IsSmallPower(n)
    ensures Refines(m, env, Pow(b, Num(n)), Simplify(m, MultiplyOut(m, b, b, n.Floor - 1)))
  {
    if Strict(m, env, Pow(b, Num(n))).Some? {
      var v := Strict(m, env, b).value;
      SmallPowerValue(m, env, b, n);
      MultiplyOutValue(m, env, b, b, v, 1, n.Floor - 1);
      SimplifyRefines(m, env, MultiplyOut(m, b, b, n.Floor - 1));
    }
  }

  lemma SmallPowerValue(m: Lib, env: Env, b: Expr, n: real)
    requires IsSmallPower(n) && Strict(m, env, Pow(b, Num(n))).Some?
    ensures Strict(m, env, b).Some?
    ensures Strict(m, env, Pow(b, Num(n))) == Some(NatPow(Strict(m, env, b).value, n.Floor))
    ensures Strict(m, env, b) == Some(NatPow(Strict(m, env, b).value, 1))
  {
    var v := Strict(m, env, b).value;
    assert Strict(m, env, Num(n)) == Some(n);
    assert NatPow(v, 1) == Times(v, NatPow(v, 0)) == v;
  }

  lemma {:induction false} ExpandRefines(m: Lib, env: Env, e: Expr)
    requires Lawful(m)
    ensures Refines(m, env, e, Expand(m, e))
  {
    match e
    case Pow(a, b) =>
      ExpandRefines(m, env, a);
      Congruence(m, env, a, b, Expand(m, a), b);
      if b.Num? && IsSmallPower(b.n) { ExpandPowerRefines(m, env, Expand(m, a), b.n); }
    case Mul(a, b) =>
      ExpandRefines(m, env, a); ExpandRefines(m, env, b);
      Congruence(m, env, a, b, Expand(m, a), Expand(m, b));
      DistributeRefines(m, env, Mul(Expand(m, a), Expand(m, b)));
    case Add(a, b) =>
      ExpandRefines(m, env, a); ExpandRefines(m, env, b);
      Congruence(m, env, a, b, Expand(m, a), Expand(m, b));
    case Sub(a, b) =>
      ExpandRefines(m, env, a); ExpandRefines(m, env, b);
      Congruence(m, env, a, b, Expand(m, a), Expand(m, b));
    case Neg(a) =>
      ExpandRefines(m, env, a);
      UnaryCongruence(m, env, Abs, a, Expand(m, a));
    case Fn(f, a) =>
      ExpandRefines(m, env, a);
      UnaryCongruence(m, env, f, a, Expand(m, a));
    case _ =>
  }

  // ----- exp and ln cancel -----

  lemma {:induction false} CancelExpLogRefines(m: Lib, env: Env, e: Expr)
    requires Lawful(m)
    ensures Refines(m, env, e, CancelExpLog(e))
    ensures e.Num? ==> CancelExpLog(e) == e
  {
    match e
    case Fn(f, a) =>
      CancelExpLogRefines(m, env, a);
      UnaryCongruence(m, env, f, a, CancelExpLog(a));
      CancelInverseRefines(m, env, Fn(f, CancelExpLog(a)));
    case Add(a, b) =>
      CancelExpLogRefines(m, env, a); CancelExpLogRefines(m, env, b);
      Congruence(m, env, a, b, CancelExpLog(a), CancelExpLog(b));
    case Sub(a, b) =>
      CancelExpLogRefines(m, env, a); CancelExpLogRefines(m, env, b);
      Congruence(m, env, a, b, CancelExpLog(a), CancelExpLog(b));
    case Mul(a, b) =>
      CancelExpLogRefines(m, env, a); CancelExpLogRefines(m, env, b);
      Congruence(m, env, a, b, CancelExpLog(a), CancelExpLog(b));
    case Div(a, b) =>
      CancelExpLogRefines(m, env, a); CancelExpLogRefines(m, env, b);
      Congruence(m, env, a, b, CancelExpLog(a), CancelExpLog(b));
    case Pow(a, b) =>
      CancelExpLogRefines(m, env, a); CancelExpLogRefines(m, env, b);
      Congruence(m, env, a, b, CancelExpLog(a), CancelExpLog(b));
    case Neg(a) =>
      CancelExpLogRefines(m, env, a);
      UnaryCongruence(m, env, Abs, a, CancelExpLog(a));
    case _ =>
  }

  // ----- negation moves inwards -----

  lemma {:induction false} NegDistributeRefines(m: Lib, env: Env, e: Expr)
    ensures Refines(m, env, e, NegDistribute(e))
    ensures e.Num? ==> NegDistribute(e) == e
    decreases Weight(e)
  {
    match e
    case Neg(a) => NegDistributeNegRefines(m, env, a);
    case Add(a, b) =>
      NegDistributeRefines(m, env, a); NegDistributeRefines(m, env, b);
      Congruence(m, env, a, b, NegDistribute(a), NegDistribute(b));
    case Sub(a, b) =>
      NegDistributeRefines(m, env, a); NegDistributeRefines(m, env, b);
      Congruence(m, env, a, b, NegDistribute(a), NegDistribute(b));
    case Mul(a, b) =>
      NegDistributeRefines(m, env, a); NegDistributeRefines(m, env, b);
      Congruence(m, env, a, b, NegDistribute(a), NegDistribute(b));
    case Div(a, b) =>
      NegDistributeRefines(m, env, a); NegDistributeRefines(m, env, b);
      Congruence(m, env, a, b, NegDistribute(a), NegDistribute(b));
    case Pow(a, b) =>
      NegDistributeRefines(m, env, a); NegDistributeRefines(m, env, b);
      Congruence(m, env, a, b, NegDistribute(a), NegDistribute(b));
    case Fn(f, a) =>
      NegDistributeRefines(m, env, a);
      UnaryCongruence(m, env, f, a, NegDistribute(a));
    case _ =>
  }

  /** The values behind the three rules for a negation. */
  lemma NegationValues(m: Lib, env: Env, a: Expr, b: Expr)
    ensures Strict(m, env, Neg(Sub(a, b))) == Strict(m, env, Sub(b, a))
    ensures Strict(m, env, Neg(Add(a, b))) == Strict(m, env, Add(Neg(a), Neg(b)))
    ensures Strict(m, env, Neg(Neg(a))) == Strict(m, env, a)
  {
    var av, bv := Strict(m, env, a), Strict(m, env, b);
    assert Strict(m, env, Sub(a, b)) == SubValues(av, bv) && Strict(m, env, Add(a, b)) == AddValues(av, bv);
    assert Strict(m, env, Neg(a)) == NegValue(av) && Strict(m, env, Neg(b)) == NegValue(bv);
  }

  lemma {:induction false} NegDistributeNegRefines(m: Lib, env: Env, inner: Expr)
    ensures Refines(m, env, Neg(inner), NegDistribute(Neg(inner)))
    decreases Weight(Neg(inner)), 0
  {
    match inner
    case Sub(a, b) =>
      assert Weight(inner) == Weight(a) + 2 * Weight(b) + 1;
      NegDistributeRefines(m, env, a); NegDistributeRefines(m, env, b);
      Congruence(m, env, b, a, NegDistribute(b), NegDistribute(a));
      NegationValues(m, env, a, b);
      assert NegDistribute(Neg(inner)) == Sub(NegDistribute(b), NegDistribute(a));
    case Add(a, b) =>
      assert Weight(inner) == Weight(a) + Weight(b) + 1;
      NegDistributeRefines(m, env, Neg(a)); NegDistributeRefines(m, env, Neg(b));
      Congruence(m, env, Neg(a), Neg(b), NegDistribute(Neg(a)), NegDistribute(Neg(b)));
      NegationValues(m, env, a, b);
      assert NegDistribute(Neg(inner)) == Add(NegDistribute(Neg(a)), NegDistribute(Neg(b)));
    case Neg(a) =>
      assert Weight(inner) == 2 * Weight(a);
      NegDistributeRefines(m, env, a);
      NegationValues(m, env, a, a);
      assert NegDistribute(Neg(inner)) == NegDistribute(a);
    case Num(_) =>
    case _ =>
      NegDistributeRefines(m, env, inner);
      UnaryCongruence(m, env, Abs, inner, NegDistribute(inner));
      assert NegDistribute(Neg(inner)) == Neg(NegDistribute(inner));
  }

  // ----- division by a literal -----

  lemma DivByLiteral(a: Value, b: Value, k: real)
    requires k != 0.0
    ensures DivValues(a, Some(k)) == MulValues(Some(1.0 / k), a)
    ensures DivValues(AddValues(a, b), Some(k)) == AddValues(DivValues(a, Some(k)), DivValues(b, Some(k)))
  {
    if a.Some? {
      assert Times(1.0 / k, a.value) == a.value / k;
      if b.Some? { assert (a.value + b.value) / k == a.value / k + b.value / k; }
    }
  }

  lemma SumOverLiteral(m: Lib, env: Env, a: Expr, b: Expr, k: real)
    requires k != 0.0
    ensures Strict(m, env, Add(Div(a, Num(k)), Div(b, Num(k)))) == Strict(m, env, Div(Add(a, b), Num(k)))
  {
    DivByLiteral(Strict(m, env, a), Strict(m, env, b), k);
    assert Strict(m, env, Num(k)) == Some(k);
    assert Strict(m, env, Div(a, Num(k))) == DivValues(Strict(m, env, a), Some(k));
    assert Strict(m, env, Div(b, Num(k))) == DivValues(Strict(m, env, b), Some(k));
  }

  lemma {:induction false} CanonicalizeDivRefines(m: Lib, env: Env, e: Expr)
    ensures Refines(m, env, e, CanonicalizeDiv(e))
    decreases Weight(e)
  {
    match e
    case Div(a, b) =>
      var a', b' := CanonicalizeDiv(a), CanonicalizeDiv(b);
      CanonicalizeDivRefines(m, env, a); CanonicalizeDivRefines(m, env, b);
      Congruence(m, env, a, b, a', b');
      WeightProductMonotone(Weight(a'), Weight(b'), Weight(a), Weight(b));
      DivZeroOne(Strict(m, env, a'));
      if b'.Num? && b'.n != 1.0 && b'.n != 0.0 {
        if a'.Add? {
          var l, r := Div(a'.left, b'), Div(a'.right, b');
          CanonicalizeDivRefines(m, env, l); CanonicalizeDivRefines(m, env, r);
          Congruence(m, env, l, r, CanonicalizeDiv(l), CanonicalizeDiv(r));
          SumOverLiteral(m, env, a'.left, a'.right, b'.n);
        } else {
          DivByLiteral(Strict(m, env, a'), None, b'.n);
        }
      }
    case Add(a, b) =>
      CanonicalizeDivRefines(m, env, a); CanonicalizeDivRefines(m, env, b);
      Congruence(m, env, a, b, CanonicalizeDiv(a), CanonicalizeDiv(b));
    case Sub(a, b) =>
      CanonicalizeDivRefines(m, env, a); CanonicalizeDivRefines(m, env, b);
      Congruence(m, env, a, b, CanonicalizeDiv(a), CanonicalizeDiv(b));
    case Mul(a, b) =>
      CanonicalizeDivRefines(m, env, a); CanonicalizeDivRefines(m, env, b);
      Congruence(m, env, a, b, CanonicalizeDiv(a), CanonicalizeDiv(b));
    case Pow(a, b) =>
      CanonicalizeDivRefines(m, env, a); CanonicalizeDivRefines(m, env, b);
      Congruence(m, env, a, b, CanonicalizeDiv(a), CanonicalizeDiv(b));
    case Neg(a) =>
      CanonicalizeDivRefines(m, env, a);
      UnaryCongruence(m, env, Abs, a, CanonicalizeDiv(a));
    case Fn(f, a) =>
      CanonicalizeDivRefines(m, env, a);
      UnaryCongruence(m, env, f, a, CanonicalizeDiv(a));
    case _ =>
  }

  // ----- what the passes leave -----

  predicate EveryNode(e: Expr, p: Expr -> bool) {
    && p(e)
    && match e
       case Num(_) => true
       case Var(_) => true
       case Add(a, b) => EveryNode(a, p) && EveryNode(b, p)
       case Sub(a, b) => EveryNode(a, p) && EveryNode(b, p)
       case Mul(a, b) => EveryNode(a, p) && EveryNode(b, p)
       case Div(a, b) => EveryNode(a, p) && EveryNode(b, p)
       case Pow(a, b) => EveryNode(a, p) && EveryNode(b, p)
       case Neg(a) => EveryNode(a, p)
       case Fn(_, a) => EveryNode(a, p)
  }

  /** Not a negation of a sum, a difference, a negation or a literal. */
  predicate NegationIsInnermost(e: Expr) {
    e.Neg? ==> !(e.arg.Add? || e.arg.Sub? || e.arg.Neg? || e.arg.Num?)
  }

  /** Not exp of ln, nor ln of exp. */
  predicate NoCancellingPair(e: Expr) {
    e.Fn? && e.arg.Fn? ==> !(e.f == Exp && e.arg.f == Ln) && !(e.f == Ln && e.arg.f == Exp)
  }

  /** Not a quotient by a literal. */
  predicate NoLiteralDivisor(e: Expr) {
    e.Div? ==> !e.right.Num?
  }

  /** After `apply_neg_distribute` negations stand before products, quotients, powers, functions and variables only. */
  lemma {:induction false} NegationsMovedInwards(e: Expr)
    ensures EveryNode(NegDistribute(e), NegationIsInnermost)
    decreases Weight(e)
  {
    match e
    case Neg(Sub(a, b)) =>
      assert Weight(e.arg) == Weight(a) + 2 * Weight(b) + 1;
      NegationsMovedInwards(a); NegationsMovedInwards(b);
    case Neg(Add(a, b)) =>
      assert Weight(e.arg) == Weight(a) + Weight(b) + 1;
      NegationsMovedInwards(Neg(a)); NegationsMovedInwards(Neg(b));
    case Neg(Neg(a)) =>
      assert Weight(e.arg) == 2 * Weight(a);
      NegationsMovedInwards(a);
    case Neg(a) => NegationsMovedInwards(a);
    case Add(a, b) => NegationsMovedInwards(a); NegationsMovedInwards(b);
    case Sub(a, b) => NegationsMovedInwards(a); NegationsMovedInwards(b);
    case Mul(a, b) => NegationsMovedInwards(a); NegationsMovedInwards(b);
    case Div(a, b) => NegationsMovedInwards(a); NegationsMovedInwards(b);
    case Pow(a, b) => NegationsMovedInwards(a); NegationsMovedInwards(b);
    case Fn(_, a) => NegationsMovedInwards(a);
    case _ =>
  }

  /** After `apply_exp_log_cancel` no exp stands directly on a ln, and no ln on an exp. */
  lemma {:induction false} PairsCancelled(e: Expr)
    ensures EveryNode(CancelExpLog(e), NoCancellingPair)
  {
    match e
    case Add(a, b) => PairsCancelled(a); PairsCancelled(b);
    case Sub(a, b) => PairsCancelled(a); PairsCancelled(b);
    case Mul(a, b) => PairsCancelled(a); PairsCancelled(b);
    case Div(a, b) => PairsCancelled(a); PairsCancelled(b);
    case Pow(a, b) => PairsCancelled(a); PairsCancelled(b);
    case Neg(a) => PairsCancelled(a);
    case Fn(_, a) => PairsCancelled(a);
    case _ =>
  }

  /** After `canonicalize_div` nothing is divided by a literal. */
  lemma {:induction false} DivisorsCanonical(e: Expr)
    ensures EveryNode(CanonicalizeDiv(e), NoLiteralDivisor)
    decreases Weight(e)
  {
    match e
    case Div(a, b) =>
      var a', b' := CanonicalizeDiv(a), CanonicalizeDiv(b);
      DivisorsCanonical(a); DivisorsCanonical(b);
      WeightProductMonotone(Weight(a'), Weight(b'), Weight(a), Weight(b));
      if b'.Num? && b'.n != 1.0 && b'.n != 0.0 && a'.Add? {
        DivisorsCanonical(Div(a'.left, b')); DivisorsCanonical(Div(a'.right, b'));
      }
    case Add(a, b) => DivisorsCanonical(a); DivisorsCanonical(b);
    case Sub(a, b) => DivisorsCanonical(a); DivisorsCanonical(b);
    case Mul(a, b) => DivisorsCanonical(a); DivisorsCanonical(b);
    case Pow(a, b) => DivisorsCanonical(a); DivisorsCanonical(b);
    case Neg(a) => DivisorsCanonical(a);
    case Fn(_, a) => DivisorsCanonical(a);
    case _ =>
  }
}
