/** `SymExpr::simplify`, its rule functions and `fold_numeric`. */
module Simplification {
  import opened Wrappers
  import opened Expressions
  import opened RealFacts
  import opened Powers

  /**
    The measure under which every rule is non-increasing, although distribution makes
    trees larger. It bounds the mutual recursion of Simplify and FoldNumeric.
    */
  function Weight(e: Expr): (w: nat)
    ensures w >= 2
  {
    match e
    case Num(_) => 2
    case Var(_) => 2
    case Add(a, b) => Weight(a) + Weight(b) + 1
    case Sub(a, b) => Weight(a) + 2 * Weight(b) + 1
    case Mul(a, b) => WeightProduct(Weight(a), Weight(b))
    case Div(a, b) => WeightProduct(Weight(a), Weight(b))
    case Pow(a, b) => Weight(a) + Weight(b)
    case Neg(a) => 2 * Weight(a)
    case Fn(_, a) => Weight(a) + 1
  }

  function WeightProduct(x: nat, y: nat): (p: nat)
    requires x >= 2 && y >= 2
    ensures p > x && p > y && p >= 2
    ensures x == 2 ==> p == 2 * y
    ensures y == 2 ==> p == 2 * x
  {
    assert x * y >= 2 * y && x * y >= x * 2;
    x * y
  }

  lemma WeightProductMonotone(x: nat, y: nat, x': nat, y': nat)
    requires 2 <= x <= x' && 2 <= y <= y'
    ensures WeightProduct(x, y) <= WeightProduct(x', y')
  {
    assert x * y <= x' * y && x' * y <= x' * y';
  }

  // ----- the rules -----

  predicate IsNegOf(e: Expr, other: Expr) {
    e.Neg? && e.arg == other
  }

  function AddRules(a: Expr, b: Expr): (r: Expr)
    ensures Weight(r) <= Weight(Add(a, b))
  {
    if a == Num(0.0) then b
    else if b == Num(0.0) then a
    else if a.Num? && b.Num? then Num(a.n + b.n)
    else if a == b then Mul(Num(2.0), a)
    else if IsNegOf(a, b) || IsNegOf(b, a) then Num(0.0)
    else Add(a, b)
  }

  function SubRules(a: Expr, b: Expr): (r: Expr)
    ensures Weight(r) <= Weight(Sub(a, b))
  {
    if b == Num(0.0) then a
    else if a == b then Num(0.0)
    else if a.Num? && b.Num? then Num(a.n - b.n)
    else if a == Num(0.0) then Neg(b)
    else if b.Neg? then Add(a, b.arg)
    else Sub(a, b)
  }

  function MulRules(a: Expr, b: Expr): (r: Expr)
    ensures Weight(r) <= Weight(Mul(a, b))
  {
    if a == Num(0.0) || b == Num(0.0) then Num(0.0)
    else if a == Num(1.0) then b
    else if b == Num(1.0) then a
    else if a.Num? && b.Num? then Num(Times(a.n, b.n))
    else if a.Num? then ScaleLeft(a, b)
    else if b.Num? then ScaleRight(a, b)
    else MergePowers(a, b)
  }

  /** A literal times a sum, a difference or a scaled term. */
  function ScaleLeft(a: Expr, b: Expr): (r: Expr)
    requires a.Num?
    ensures Weight(r) <= Weight(Mul(a, b))
  {
    match b
    case Add(u, v) => Add(Mul(a, u), Mul(a, v))
    case Sub(u, v) => Sub(Mul(a, u), Mul(a, v))
    case Mul(Num(y), u) => Mul(Num(Times(a.n, y)), u)
    case _ => Mul(a, b)
  }

  /** A sum, a difference or a scaled term times a literal. */
  function ScaleRight(a: Expr, b: Expr): (r: Expr)
    requires b.Num?
    ensures Weight(r) <= Weight(Mul(a, b))
  {
    match a
    case Add(u, v) => Add(Mul(u, b), Mul(v, b))
    case Sub(u, v) => Sub(Mul(u, b), Mul(v, b))
    case Mul(Num(x), u) => Mul(Num(Times(x, b.n)), u)
    case _ => Mul(a, b)
  }

  /** x * x, x * x^n, x^n * x for a variable x, and u^n * u^k for any u. */
  function MergePowers(a: Expr, b: Expr): (r: Expr)
    ensures Weight(r) <= Weight(Mul(a, b))
  {
    match (a, b)
    case (Var(v), Var(w)) => if v == w then Pow(a, Num(2.0)) else Mul(a, b)
    case (Var(_), Pow(base, Num(n))) => if base == a then Pow(a, Num(n + 1.0)) else Mul(a, b)
    case (Pow(base, Num(n)), Var(_)) => if base == b then Pow(b, Num(n + 1.0)) else Mul(a, b)
    case (Pow(u, Num(n)), Pow(v, Num(k))) => if u == v then Pow(u, Num(n + k)) else Mul(a, b)
    case _ => Mul(a, b)
  }

  function DivRules(a: Expr, b: Expr): (r: Expr)
    ensures Weight(r) <= Weight(Div(a, b))
  {
    if a == Num(0.0) then Num(0.0)
    else if b == Num(1.0) then a
    else if a == b then Num(1.0)
    else if a.Num? && b.Num? && b.n != 0.0 then Num(a.n / b.n)
    else Div(a, b)
  }

  function PowRules(m: Lib, base: Expr, exp: Expr): (r: Expr)
    ensures Weight(r) <= Weight(Pow(base, exp))
  {
    if exp == Num(0.0) then Num(1.0)
    else if exp == Num(1.0) then base
    else if base == Num(0.0) then Num(0.0)
    else if base == Num(1.0) then Num(1.0)
    else if base.Num? && exp.Num? && (base.n >= 0.0 || IsInteger(exp.n)) then
      match Powf(m, base.n, exp.n)
      case Some(v) => Num(v)
      case None => Pow(base, exp)  // not reached: a power that is folded is defined
    else Pow(base, exp)
  }

  function NegRules(a: Expr): (r: Expr)
    ensures Weight(r) <= Weight(Neg(a))
  {
    match a
    case Neg(inner) => inner
    case Num(n) => Num(-n)
    case Add(u, v) => Add(Neg(u), Neg(v))
    case Sub(u, v) => Sub(v, u)
    case _ => Neg(a)
  }

  /** ln(exp(x)) and exp(ln(x)) become x. */
  function CancelInverse(e: Expr): (r: Expr)
    ensures Weight(r) <= Weight(e)
  {
    match e
    case Fn(Ln, Fn(Exp, x)) => x
    case Fn(Exp, Fn(Ln, x)) => x
    case _ => e
  }

  function Simplify(m: Lib, e: Expr): (r: Expr)
    ensures Weight(r) <= Weight(e)
    decreases Weight(e), 1
  {
    match e
    case Add(a, b) => FoldNumeric(m, AddRules(Simplify(m, a), Simplify(m, b)))
    case Sub(a, b) => FoldNumeric(m, SubRules(Simplify(m, a), Simplify(m, b)))
    case Mul(a, b) =>
      var a', b' := Simplify(m, a), Simplify(m, b);
      WeightProductMonotone(Weight(a'), Weight(b'), Weight(a), Weight(b));
      FoldNumeric(m, MulRules(a', b'))
    case Div(a, b) =>
      var a', b' := Simplify(m, a), Simplify(m, b);
      WeightProductMonotone(Weight(a'), Weight(b'), Weight(a), Weight(b));
      FoldNumeric(m, DivRules(a', b'))
    case Pow(a, b) => FoldNumeric(m, PowRules(m, Simplify(m, a), Simplify(m, b)))
    case Neg(a) => FoldNumeric(m, NegRules(Simplify(m, a)))
    case Fn(f, a) => FoldNumeric(m, Fn(f, Simplify(m, a)))
    case _ => FoldNumeric(m, e)
  }

  /** Folds a function of a literal; otherwise simplifies the children once more. */
  function FoldNumeric(m: Lib, e: Expr): (r: Expr)
    ensures Weight(r) <= Weight(e)
    decreases Weight(e), 0
  {
    match CancelInverse(e)
    case Fn(f, a) => if a.Num? && InDomain(f, a.n) then Num(Apply(m, f, a.n)) else Fn(f, a)
    case Add(a, b) => Add(Simplify(m, a), Simplify(m, b))
    case Sub(a, b) => Sub(Simplify(m, a), Simplify(m, b))
    case Mul(a, b) =>
      var a', b' := Simplify(m, a), Simplify(m, b);
      WeightProductMonotone(Weight(a'), Weight(b'), Weight(a), Weight(b));
      Mul(a', b')
    case Div(a, b) =>
      var a', b' := Simplify(m, a), Simplify(m, b);
      WeightProductMonotone(Weight(a'), Weight(b'), Weight(a), Weight(b));
      Div(a', b')
    case Pow(a, b) => Pow(Simplify(m, a), Simplify(m, b))
    case Neg(a) => Neg(Simplify(m, a))
    case c => c
  }
}
