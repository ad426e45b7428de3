/** Expansion and the identity rewrites of `canonicalize`, other than like-term collection. */
module Rewriting {
  import opened Wrappers
  import opened Expressions
  import opened Iteration
  import opened RealFacts
  import opened Simplification

  // ----- distribute -----

  predicate IsAtom(e: Expr) {
    e.Num? || e.Var?
  }

  /** The product of two already distributed factors. */
  function DistributeProduct(a: Expr, b: Expr): Expr {
    match (a, b)
    case (Add(u, v), Add(x, y)) => Add(Add(Add(Mul(u, x), Mul(u, y)), Mul(v, x)), Mul(v, y))
    case (Sub(u, v), Add(x, y)) => Sub(Add(Mul(u, x), Mul(u, y)), Add(Mul(v, x), Mul(v, y)))
    case (Add(u, v), Sub(x, y)) => Add(Sub(Mul(u, x), Mul(u, y)), Sub(Mul(v, x), Mul(v, y)))
    case (Sub(u, v), Sub(x, y)) => Sub(Sub(Mul(u, x), Mul(u, y)), Sub(Mul(v, x), Mul(v, y)))
    case (_, Add(x, y)) => if IsAtom(a) then Add(Mul(a, x), Mul(a, y)) else Mul(a, b)
    case (Add(u, v), _) => if IsAtom(b) then Add(Mul(u, b), Mul(v, b)) else Mul(a, b)
    case (_, Sub(x, y)) => if IsAtom(a) then Sub(Mul(a, x), Mul(a, y)) else Mul(a, b)
    case (Sub(u, v), _) => if IsAtom(b) then Sub(Mul(u, b), Mul(v, b)) else Mul(a, b)
    case _ => Mul(a, b)
  }

  /** `distribute`: one level of distribution at every product outside quotients and powers. */
  function Distribute(e: Expr): Expr {
    match e
    case Mul(a, b) => DistributeProduct(Distribute(a), Distribute(b))
    case Add(a, b) => Add(Distribute(a), Distribute(b))
    case Sub(a, b) => Sub(Distribute(a), Distribute(b))
    case Neg(a) => Neg(Distribute(a))
    case Fn(f, a) => Fn(f, Distribute(a))
    case _ => e
  }

  // ----- expand -----

  /** The exponents that `expand` multiplies out: the integers from 1 to 10. */
  predicate IsSmallPower(n: real) {
    IsInteger(n) && 1.0 <= n <= 10.0
  }

  /** `product` times `base`, k more times, distributing and simplifying after each step. */
  function MultiplyOut(m: Lib, product: Expr, base: Expr, k: nat): Expr
    decreases k
  {
    if k == 0 then product
    else MultiplyOut(m, Simplify(m, Distribute(Mul(product, base))), base, k - 1)
  }

  function Expand(m: Lib, e: Expr): Expr {
    match e
    case Pow(base, exp) =>
      if exp.Num? && IsSmallPower(exp.n) then
        var b := Expand(m, base);
        Simplify(m, MultiplyOut(m, b, b, exp.n.Floor - 1))
      else Pow(Expand(m, base), exp)
    case Add(a, b) => Add(Expand(m, a), Expand(m, b))
    case Sub(a, b) => Sub(Expand(m, a), Expand(m, b))
    case Mul(a, b) => Distribute(Mul(Expand(m, a), Expand(m, b)))
    case Neg(a) => Neg(Expand(m, a))
    case Fn(f, a) => Fn(f, Expand(m, a))
    case _ => e
  }

  // The loop inside `expand` is Iteration.IterateLoop with this step.

  /** The step multiplies by the base, distributes and simplifies. */
  ghost predicate TimesBase(m: Lib, base: Expr, step: Expr -> Expr) {
    forall p :: step(p) == Simplify(m, Distribute(Mul(p, base)))
  }

  /** With that step the loop computes what `Expand` uses. */
  lemma {:induction false} LoopIsMultiplyOut(m: Lib, product: Expr, base: Expr, step: Expr -> Expr, k: nat)
    requires TimesBase(m, base, step)
    ensures Iterate(step, product, k) == MultiplyOut(m, product, base, k)
    decreases k
  {
    if k > 0 { LoopIsMultiplyOut(m, step(product), base, step, k - 1); }
  }

  // ----- exp and ln cancel -----

  function CancelExpLog(e: Expr): Expr {
    match e
    case Fn(Exp, a) => var a' := CancelExpLog(a); if a'.Fn? && a'.f == Ln then a'.arg else Fn(Exp, a')
    case Fn(Ln, a) => var a' := CancelExpLog(a); if a'.Fn? && a'.f == Exp then a'.arg else Fn(Ln, a')
    case Fn(f, a) => Fn(f, CancelExpLog(a))
    case Add(a, b) => Add(CancelExpLog(a), CancelExpLog(b))
    case Sub(a, b) => Sub(CancelExpLog(a), CancelExpLog(b))
    case Mul(a, b) => Mul(CancelExpLog(a), CancelExpLog(b))
    case Div(a, b) => Div(CancelExpLog(a), CancelExpLog(b))
    case Pow(a, b) => Pow(CancelExpLog(a), CancelExpLog(b))
    case Neg(a) => Neg(CancelExpLog(a))
    case _ => e
  }

  // ----- negation moves inwards -----

  function NegDistribute(e: Expr): Expr
    decreases Weight(e)
  {
    match e
    case Neg(Sub(a, b)) =>
      assert Weight(e.arg) == Weight(a) + 2 * Weight(b) + 1;
      Sub(NegDistribute(b), NegDistribute(a))
    case Neg(Add(a, b)) =>
      assert Weight(e.arg) == Weight(a) + Weight(b) + 1;
      assert Weight(Neg(a)) == 2 * Weight(a) && Weight(Neg(b)) == 2 * Weight(b);
      Add(NegDistribute(Neg(a)), NegDistribute(Neg(b)))
    case Neg(Neg(a)) =>
      assert Weight(e.arg) == 2 * Weight(a);
      NegDistribute(a)
    case Neg(Num(n)) => Num(-n)
    case Neg(a) => Neg(NegDistribute(a))
    case Add(a, b) => Add(NegDistribute(a), NegDistribute(b))
    case Sub(a, b) => Sub(NegDistribute(a), NegDistribute(b))
    case Mul(a, b) => Mul(NegDistribute(a), NegDistribute(b))
    case Div(a, b) => Div(NegDistribute(a), NegDistribute(b))
    case Pow(a, b) => Pow(NegDistribute(a), NegDistribute(b))
    case Fn(f, a) => Fn(f, NegDistribute(a))
    case _ => e
  }

  // ----- division by a literal becomes multiplication -----

  function CanonicalizeDiv(e: Expr): (r: Expr)
    ensures Weight(r) <= Weight(e)
    ensures e.Num? ==> r == e
    decreases Weight(e)
  {
    match e
    case Div(num, den) =>
      var num', den' := CanonicalizeDiv(num), CanonicalizeDiv(den);
      WeightProductMonotone(Weight(num'), Weight(den'), Weight(num), Weight(den));
      if !den'.Num? then Div(num', den')
      else if den'.n == 1.0 || den'.n == 0.0 then num'
      else if num'.Add? then
        Add(CanonicalizeDiv(Div(num'.left, den')), CanonicalizeDiv(Div(num'.right, den')))
      else Mul(Num(1.0 / den'.n), num')
    case Add(a, b) => Add(CanonicalizeDiv(a), CanonicalizeDiv(b))
    case Sub(a, b) => Sub(CanonicalizeDiv(a), CanonicalizeDiv(b))
    case Mul(a, b) =>
      var a', b' := CanonicalizeDiv(a), CanonicalizeDiv(b);
      WeightProductMonotone(Weight(a'), Weight(b'), Weight(a), Weight(b));
      Mul(a', b')
    case Pow(a, b) => Pow(CanonicalizeDiv(a), CanonicalizeDiv(b))
    case Neg(a) => Neg(CanonicalizeDiv(a))
    case Fn(f, a) => Fn(f, CanonicalizeDiv(a))
    case _ => e
  }
}
