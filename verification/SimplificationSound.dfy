/** `simplify` preserves every value its argument has. */
module SimplificationSound {
  import opened Wrappers
  import opened Expressions
  import opened RealFacts
  import opened Powers
  import opened Simplification
  import opened ValueAlgebra

  // ----- refinement is a congruence -----

  /** Replacing the operands of a binary operation by refinements of them. */
  lemma Congruence(m: Lib, env: Env, a: Expr, b: Expr, a': Expr, b': Expr)
    requires Refines(m, env, a, a') && Refines(m, env, b, b')
    ensures Refines(m, env, Add(a, b), Add(a', b'))
    ensures Refines(m, env, Sub(a, b), Sub(a', b'))
    ensures Refines(m, env, Mul(a, b), Mul(a', b'))
    ensures Refines(m, env, Div(a, b), Div(a', b'))
    ensures (b.Num? ==> b'.Num?) ==> Refines(m, env, Pow(a, b), Pow(a', b'))
  {
  }

  lemma UnaryCongruence(m: Lib, env: Env, f: Func, a: Expr, a': Expr)
    requires Refines(m, env, a, a')
    ensures Refines(m, env, Neg(a), Neg(a'))
    ensures Refines(m, env, Fn(f, a), Fn(f, a'))
  {
  }

  // ----- each rule refines -----

  lemma AddRulesRefine(m: Lib, env: Env, a: Expr, b: Expr)
    ensures Refines(m, env, Add(a, b), AddRules(a, b))
  {
    Doubling(Strict(m, env, a));
  }

  lemma SubRulesRefine(m: Lib, env: Env, a: Expr, b: Expr)
    ensures Refines(m, env, Sub(a, b), SubRules(a, b))
  {
  }

  lemma MulRulesRefine(m: Lib, env: Env, a: Expr, b: Expr)
    requires Lawful(m)
    ensures Refines(m, env, Mul(a, b), MulRules(a, b))
  {
    MulZeroOne(Strict(m, env, a));
    MulZeroOne(Strict(m, env, b));
    if a.Num? && b.Num? {
    } else if a.Num? {
      ScaleLeftRefines(m, env, a, b);
    } else if b.Num? {
      ScaleRightRefines(m, env, a, b);
    } else {
      MergePowersRefines(m, env, a, b);
    }
  }

  lemma ScaleLeftRefines(m: Lib, env: Env, a: Expr, b: Expr)
    requires a.Num?
    ensures Refines(m, env, Mul(a, b), ScaleLeft(a, b))
  {
    var av := Strict(m, env, a);
    match b
    case Add(u, v) => MulOverAdd(av, Strict(m, env, u), Strict(m, env, v));
    case Sub(u, v) => MulOverSub(av, Strict(m, env, u), Strict(m, env, v));
    case Mul(Num(y), u) =>
      assert Strict(m, env, b) == MulValues(Some(y), Strict(m, env, u));
      MulAssociates(av, Some(y), Strict(m, env, u));
    case _ =>
  }

  lemma ScaleRightRefines(m: Lib, env: Env, a: Expr, b: Expr)
    requires b.Num?
    ensures Refines(m, env, Mul(a, b), ScaleRight(a, b))
  {
    var bv := Strict(m, env, b);
    match a
    case Add(u, v) => MulOverAdd(bv, Strict(m, env, u), Strict(m, env, v));
    case Sub(u, v) => MulOverSub(bv, Strict(m, env, u), Strict(m, env, v));
    case Mul(Num(x), u) =>
      var uv := Strict(m, env, u);
      assert Strict(m, env, a) == MulValues(Some(x), uv);
      MulCommutes(Strict(m, env, a), bv);
      MulAssociates(bv, Some(x), uv);
      MulCommutes(bv, Some(x));
    case _ =>
  }

  lemma MergePowersRefines(m: Lib, env: Env, a: Expr, b: Expr)
    requires Lawful(m)
    ensures Refines(m, env, Mul(a, b), MergePowers(a, b))
  {
    var av, bv := Strict(m, env, a), Strict(m, env, b);
    if av.Some? && bv.Some? {
      match (a, b)
      case (Var(_), Var(_)) => PowfSmall(m, av.value, 2.0);
      case (Var(_), Pow(_, Num(n))) => if b.base == a { OneMoreFactor(m, env, a, n); }
      case (Pow(_, Num(n)), Var(_)) => if a.base == b { OneMoreFactor(m, env, b, n); }
      case (Pow(u, Num(n)), Pow(_, Num(k))) =>
        if u == b.base {
          LiteralPower(m, env, u, n);
          LiteralPower(m, env, u, k);
          LiteralPower(m, env, u, n + k);
          PowfAdd(m, Strict(m, env, u).value, n, k);
        }
      case _ =>
    }
  }

  lemma LiteralPower(m: Lib, env: Env, u: Expr, n: real)
    ensures Strict(m, env, Pow(u, Num(n))) == PowValues(m, Strict(m, env, u), Some(n))
  {
    assert Strict(m, env, Num(n)) == Some(n);
  }

  /** u * u^n and u^n * u are u^(n + 1). */
  lemma OneMoreFactor(m: Lib, env: Env, u: Expr, n: real)
    requires Lawful(m) && Strict(m, env, u).Some? && Strict(m, env, Pow(u, Num(n))).Some?
    ensures Strict(m, env, Pow(u, Num(n + 1.0))) == Strict(m, env, Mul(u, Pow(u, Num(n))))
         == Strict(m, env, Mul(Pow(u, Num(n)), u))
  {
    var x := Strict(m, env, u).value;
    LiteralPower(m, env, u, n);
    LiteralPower(m, env, u, n + 1.0);
    PowfSmall(m, x, 1.0);
    PowfAdd(m, x, n, 1.0);
    MulCommutes(Strict(m, env, u), Strict(m, env, Pow(u, Num(n))));
  }

  lemma DivRulesRefine(m: Lib, env: Env, a: Expr, b: Expr)
    ensures Refines(m, env, Div(a, b), DivRules(a, b))
  {
    DivZeroOne(Strict(m, env, a));
    DivZeroOne(Strict(m, env, b));
  }

  lemma PowRulesRefine(m: Lib, env: Env, base: Expr, exp: Expr)
    requires Lawful(m)
    ensures Refines(m, env, Pow(base, exp), PowRules(m, base, exp))
  {
    var bv, ev := Strict(m, env, base), Strict(m, env, exp);
    if bv.Some? && ev.Some? {
      PowfSmall(m, bv.value, ev.value);
      PowfAtZero(m, ev.value);
      PowfOne(m, ev.value);
    }
  }

  lemma NegRulesRefine(m: Lib, env: Env, a: Expr)
    ensures Refines(m, env, Neg(a), NegRules(a))
  {
  }

  lemma CancelInverseRefines(m: Lib, env: Env, e: Expr)
    requires Lawful(m)
    ensures Refines(m, env, e, CancelInverse(e))
  {
    match e
    case Fn(Ln, Fn(Exp, x)) =>
      var v := Strict(m, env, x);
      if v.Some? { assert LnUndoesExp(m, v.value); }
    case Fn(Exp, Fn(Ln, x)) =>
      var v := Strict(m, env, x);
      if v.Some? { assert ExpUndoesLn(m, v.value); }
    case _ =>
  }

  // ----- simplification refines -----

  lemma {:induction false} SimplifyKeepsLiterals(m: Lib, e: Expr)
    ensures e.Num? ==> Simplify(m, e) == e
  {
  }

  /** Wherever an expression has a value, its simplification has the same one. */
  lemma {:induction false} SimplifyRefines(m: Lib, env: Env, e: Expr)
    requires Lawful(m)
    ensures Refines(m, env, e, Simplify(m, e))
    decreases Weight(e), 1
  {
    match e
    case Add(a, b) =>
      var a', b' := Simplify(m, a), Simplify(m, b);
      SimplifyRefines(m, env, a); SimplifyRefines(m, env, b);
      Congruence(m, env, a, b, a', b');
      AddRulesRefine(m, env, a', b');
      FoldNumericRefines(m, env, AddRules(a', b'));
    case Sub(a, b) =>
      var a', b' := Simplify(m, a), Simplify(m, b);
      SimplifyRefines(m, env, a); SimplifyRefines(m, env, b);
      Congruence(m, env, a, b, a', b');
      SubRulesRefine(m, env, a', b');
      FoldNumericRefines(m, env, SubRules(a', b'));
    case Mul(a, b) =>
      var a', b' := Simplify(m, a), Simplify(m, b);
      SimplifyRefines(m, env, a); SimplifyRefines(m, env, b);
      Congruence(m, env, a, b, a', b');
      MulRulesRefine(m, env, a', b');
      WeightProductMonotone(Weight(a'), Weight(b'), Weight(a), Weight(b));
      FoldNumericRefines(m, env, MulRules(a', b'));
    case Div(a, b) =>
      var a', b' := Simplify(m, a), Simplify(m, b);
      SimplifyRefines(m, env, a); SimplifyRefines(m, env, b);
      Congruence(m, env, a, b, a', b');
      DivRulesRefine(m, env, a', b');
      WeightProductMonotone(Weight(a'), Weight(b'), Weight(a), Weight(b));
      FoldNumericRefines(m, env, DivRules(a', b'));
    case Pow(a, b) =>
      var a', b' := Simplify(m, a), Simplify(m, b);
      SimplifyRefines(m, env, a); SimplifyRefines(m, env, b);
      SimplifyKeepsLiterals(m, b);
      Congruence(m, env, a, b, a', b');
      PowRulesRefine(m, env, a', b');
      FoldNumericRefines(m, env, PowRules(m, a', b'));
    case Neg(a) =>
      var a' := Simplify(m, a);
      SimplifyRefines(m, env, a);
      UnaryCongruence(m, env, Abs, a, a');
      NegRulesRefine(m, env, a');
      FoldNumericRefines(m, env, NegRules(a'));
    case Fn(f, a) =>
      var a' := Simplify(m, a);
      SimplifyRefines(m, env, a);
      UnaryCongruence(m, env, f, a, a');
      FoldNumericRefines(m, env, Fn(f, a'));
    case _ =>
  }

  lemma {:induction false} FoldNumericRefines(m: Lib, env: Env, e: Expr)
    requires Lawful(m)
    ensures Refines(m, env, e, FoldNumeric(m, e))
    decreases Weight(e), 0
  {
    CancelInverseRefines(m, env, e);
    var c := CancelInverse(e);
    match c
    case Fn(f, a) => FoldLiteralRefines(m, env, f, a);
    case Num(_) =>
    case Var(_) =>
    case Neg(a) =>
      SimplifyRefines(m, env, a);
      UnaryCongruence(m, env, Abs, a, Simplify(m, a));
    case Pow(a, b) => SimplifyBoth(m, env, a, b);
    case Add(a, b) => SimplifyBoth(m, env, a, b);
    case Sub(a, b) => SimplifyBoth(m, env, a, b);
    case Mul(a, b) => SimplifyBoth(m, env, a, b);
    case Div(a, b) => SimplifyBoth(m, env, a, b);
  }

  lemma FoldLiteralRefines(m: Lib, env: Env, f: Func, a: Expr)
    ensures a.Num? && InDomain(f, a.n) ==> Refines(m, env, Fn(f, a), Num(Apply(m, f, a.n)))
  {
  }

  lemma {:induction false} SimplifyBoth(m: Lib, env: Env, a: Expr, b: Expr)
    requires Lawful(m)
    ensures Refines(m, env, Add(a, b), Add(Simplify(m, a), Simplify(m, b)))
    ensures Refines(m, env, Sub(a, b), Sub(Simplify(m, a), Simplify(m, b)))
    ensures Refines(m, env, Mul(a, b), Mul(Simplify(m, a), Simplify(m, b)))
    ensures Refines(m, env, Div(a, b), Div(Simplify(m, a), Simplify(m, b)))
    ensures Refines(m, env, Pow(a, b), Pow(Simplify(m, a), Simplify(m, b)))
    decreases if Weight(a) > Weight(b) then Weight(a) else Weight(b), 2
  {
    SimplifyRefines(m, env, a);
    SimplifyRefines(m, env, b);
    SimplifyKeepsLiterals(m, b);
    Congruence(m, env, a, b, Simplify(m, a), Simplify(m, b));
  }

  // ----- what it leaves of the usual identities -----

  /** A term that is simplified already: not a literal, a sum or a negation. */
  predicate IsPlainTerm(m: Lib, e: Expr) {
    Simplify(m, e) == e && FoldNumeric(m, e) == e && !e.Num? && !e.Add? && !e.Sub? && !e.Neg?
  }

  lemma LiteralsStay(m: Lib, c: real)
    ensures Simplify(m, Num(c)) == Num(c) == FoldNumeric(m, Num(c))
  {
    assert FoldNumeric(m, Num(c)) == Num(c);
    assert Simplify(m, Num(c)) == FoldNumeric(m, Num(c));
  }

  lemma FoldedOperands(m: Lib, a: Expr, b: Expr)
    ensures FoldNumeric(m, Add(a, b)) == Add(Simplify(m, a), Simplify(m, b))
    ensures FoldNumeric(m, Sub(a, b)) == Sub(Simplify(m, a), Simplify(m, b))
    ensures FoldNumeric(m, Mul(a, b)) == Mul(Simplify(m, a), Simplify(m, b))
    ensures FoldNumeric(m, Pow(a, b)) == Pow(Simplify(m, a), Simplify(m, b))
  {
  }

  /** 0, equal and opposite terms of a sum disappear. */
  lemma {:induction false} NeutralTerms(m: Lib, e: Expr)
    requires IsPlainTerm(m, e)
    ensures Simplify(m, Add(e, Num(0.0))) == e == Simplify(m, Add(Num(0.0), e))
    ensures Simplify(m, Add(e, e)) == Mul(Num(2.0), e)
    ensures Simplify(m, Add(e, Neg(e))) == Num(0.0) == Simplify(m, Add(Neg(e), e))
  {
    LiteralsStay(m, 0.0); LiteralsStay(m, 2.0);
    NegationStays(m, e);
    FoldedOperands(m, Num(2.0), e);
    hide Simplify, FoldNumeric, Weight;
    SumSimplified(m, e, Num(0.0)); SumSimplified(m, Num(0.0), e); SumSimplified(m, e, e);
    SumSimplified(m, e, Neg(e)); SumSimplified(m, Neg(e), e);
  }

  /** 0, equal terms of a difference and double negations disappear. */
  lemma {:induction false} NeutralDifferences(m: Lib, e: Expr)
    requires IsPlainTerm(m, e)
    ensures Simplify(m, Sub(e, Num(0.0))) == e && Simplify(m, Sub(Num(0.0), e)) == Neg(e)
    ensures Simplify(m, Sub(e, e)) == Num(0.0) && Simplify(m, Neg(Neg(e))) == e
  {
    LiteralsStay(m, 0.0);
    NegationStays(m, e);
    hide Simplify, FoldNumeric;
    DifferenceSimplified(m, e, Num(0.0)); DifferenceSimplified(m, Num(0.0), e); DifferenceSimplified(m, e, e);
    NegationSimplified(m, Neg(e));
  }

  lemma {:induction false} NegationStays(m: Lib, e: Expr)
    requires IsPlainTerm(m, e)
    ensures Simplify(m, Neg(e)) == Neg(e) == FoldNumeric(m, Neg(e))
  {
    assert FoldNumeric(m, Neg(e)) == Neg(Simplify(m, e));
    hide Simplify, FoldNumeric;
    NegationSimplified(m, e);
  }

  /**
    Where no rule applies to a negation or a quotient, its operands are simplified once
    more, which can matter: one pass does not always come to an end.
    */
  lemma {:induction false} OperandsSimplifiedTwice(m: Lib, a: Expr, b: Expr)
    ensures var s := Simplify(m, a);
            !s.Num? && !s.Add? && !s.Sub? && !s.Neg? ==> Simplify(m, Neg(a)) == Neg(Simplify(m, s))
    ensures var s, t := Simplify(m, a), Simplify(m, b);
            s != Num(0.0) && s != t && !t.Num? ==> Simplify(m, Div(a, b)) == Div(Simplify(m, s), Simplify(m, t))
  {
    hide Simplify, FoldNumeric;
    NegationSimplified(m, a);
    QuotientSimplified(m, a, b);
    FoldedNegation(m, Simplify(m, a));
    FoldedQuotient(m, Simplify(m, a), Simplify(m, b));
  }

  lemma {:induction false} FoldedNegation(m: Lib, a: Expr)
    ensures FoldNumeric(m, Neg(a)) == Neg(Simplify(m, a))
  {
    hide Simplify;
  }

  lemma {:induction false} FoldedQuotient(m: Lib, a: Expr, b: Expr)
    ensures FoldNumeric(m, Div(a, b)) == Div(Simplify(m, a), Simplify(m, b))
  {
    hide Simplify;
  }

  /** 0 and 1 disappear from products, quotients and powers, and so does a quotient of equal terms. */
  lemma {:induction false} NeutralFactors(m: Lib, e: Expr)
    requires IsPlainTerm(m, e)
    ensures Simplify(m, Mul(e, Num(0.0))) == Num(0.0) == Simplify(m, Mul(Num(0.0), e))
    ensures Simplify(m, Mul(e, Num(1.0))) == e == Simplify(m, Mul(Num(1.0), e))
    ensures Simplify(m, Div(e, Num(1.0))) == e && Simplify(m, Div(e, e)) == Num(1.0)
    ensures Simplify(m, Div(Num(0.0), e)) == Num(0.0)
    ensures Simplify(m, Pow(e, Num(0.0))) == Num(1.0) && Simplify(m, Pow(e, Num(1.0))) == e
    ensures Simplify(m, Pow(Num(0.0), e)) == Num(0.0) && Simplify(m, Pow(Num(1.0), e)) == Num(1.0)
  {
    LiteralsStay(m, 0.0); LiteralsStay(m, 1.0);
    hide Simplify, FoldNumeric;
    ProductSimplified(m, e, Num(0.0)); ProductSimplified(m, Num(0.0), e);
    ProductSimplified(m, e, Num(1.0)); ProductSimplified(m, Num(1.0), e);
    QuotientSimplified(m, e, Num(1.0)); QuotientSimplified(m, e, e); QuotientSimplified(m, Num(0.0), e);
    PowerSimplified(m, e, Num(0.0)); PowerSimplified(m, e, Num(1.0));
    PowerSimplified(m, Num(0.0), e); PowerSimplified(m, Num(1.0), e);
  }

  /** Two literal factors are multiplied, wherever they stand. */
  lemma {:induction false} LiteralFactorsJoin(m: Lib, e: Expr, c: real, d: real)
    requires IsPlainTerm(m, e) && (e.Mul? ==> !e.left.Num?) && c != 0.0 && c != 1.0 && d != 0.0 && d != 1.0
    ensures Simplify(m, Mul(Num(c), Mul(Num(d), e))) == Mul(Num(Times(c, d)), e)
    ensures Simplify(m, Mul(Mul(Num(c), e), Num(d))) == Mul(Num(Times(c, d)), e)
  {
    LiteralsStay(m, c); LiteralsStay(m, d); LiteralsStay(m, Times(c, d));
    MultipleStays(m, e, c); MultipleStays(m, e, d);
    assert FoldNumeric(m, Mul(Num(Times(c, d)), e)) == Mul(Num(Times(c, d)), e);
    hide Simplify, FoldNumeric;
    ProductSimplified(m, Num(c), Mul(Num(d), e));
    ProductSimplified(m, Mul(Num(c), e), Num(d));
  }

  lemma {:induction false} MultipleStays(m: Lib, e: Expr, c: real)
    requires IsPlainTerm(m, e) && (e.Mul? ==> !e.left.Num?) && c != 0.0 && c != 1.0
    ensures Simplify(m, Mul(Num(c), e)) == Mul(Num(c), e)
  {
    LiteralsStay(m, c);
    assert FoldNumeric(m, Mul(Num(c), e)) == Mul(Num(c), e);
    hide FoldNumeric;
    ProductSimplified(m, Num(c), e);
    assert MulRules(Num(c), e) == Mul(Num(c), e);
  }

  /** A literal is multiplied into a sum, and a negation moves into it. */
  lemma {:induction false} SumsScaled(m: Lib, u: Expr, v: Expr, c: real)
    requires c != 0.0 && c != 1.0 && Simplify(m, Add(u, v)) == Add(u, v)
    ensures Simplify(m, Mul(Num(c), Add(u, v))) == Add(Simplify(m, Mul(Num(c), u)), Simplify(m, Mul(Num(c), v)))
    ensures Simplify(m, Mul(Add(u, v), Num(c))) == Add(Simplify(m, Mul(u, Num(c))), Simplify(m, Mul(v, Num(c))))
    ensures Simplify(m, Neg(Add(u, v))) == Add(Simplify(m, Neg(u)), Simplify(m, Neg(v)))
  {
    hide Simplify, FoldNumeric;
    LiteralsStay(m, c);
    FoldedOperands(m, Mul(Num(c), u), Mul(Num(c), v));
    FoldedOperands(m, Mul(u, Num(c)), Mul(v, Num(c)));
    FoldedOperands(m, Neg(u), Neg(v));
    ProductSimplified(m, Num(c), Add(u, v)); ProductSimplified(m, Add(u, v), Num(c));
    NegationSimplified(m, Add(u, v));
  }

  /** The same for differences; the negation of a difference is the difference the other way round. */
  lemma {:induction false} DifferencesScaled(m: Lib, u: Expr, v: Expr, c: real)
    requires c != 0.0 && c != 1.0 && Simplify(m, Sub(u, v)) == Sub(u, v)
    ensures Simplify(m, Mul(Num(c), Sub(u, v))) == Sub(Simplify(m, Mul(Num(c), u)), Simplify(m, Mul(Num(c), v)))
    ensures Simplify(m, Mul(Sub(u, v), Num(c))) == Sub(Simplify(m, Mul(u, Num(c))), Simplify(m, Mul(v, Num(c))))
    ensures Simplify(m, Neg(Sub(u, v))) == Sub(Simplify(m, v), Simplify(m, u))
  {
    hide Simplify, FoldNumeric;
    LiteralsStay(m, c);
    FoldedOperands(m, Mul(Num(c), u), Mul(Num(c), v));
    FoldedOperands(m, Mul(u, Num(c)), Mul(v, Num(c)));
    FoldedOperands(m, v, u);
    ProductSimplified(m, Num(c), Sub(u, v)); ProductSimplified(m, Sub(u, v), Num(c));
    NegationSimplified(m, Sub(u, v));
  }

  lemma NegationSimplified(m: Lib, a: Expr)
    ensures Simplify(m, Neg(a)) == FoldNumeric(m, NegRules(Simplify(m, a)))
  {
  }

  lemma {:induction false} LiteralPowerStays(m: Lib, u: Expr, n: real)
    requires IsPlainTerm(m, u) && n != 0.0 && n != 1.0
    ensures Simplify(m, Pow(u, Num(n))) == Pow(u, Num(n))
  {
    hide Simplify, FoldNumeric;
    LiteralsStay(m, n);
    FoldedOperands(m, u, Num(n));
    PowerSimplified(m, u, Num(n));
  }

  /** Powers of one base are multiplied by adding exponents. */
  lemma {:induction false} PowersJoin(m: Lib, u: Expr, n: real, k: real)
    requires IsPlainTerm(m, u) && n != 0.0 && n != 1.0 && k != 0.0 && k != 1.0
    ensures Simplify(m, Mul(Pow(u, Num(n)), Pow(u, Num(k)))) == Pow(u, Num(n + k))
  {
    hide Simplify, FoldNumeric;
    LiteralPowerStays(m, u, n);
    LiteralPowerStays(m, u, k);
    LiteralsStay(m, n + k);
    FoldedOperands(m, u, Num(n + k));
    ProductSimplified(m, Pow(u, Num(n)), Pow(u, Num(k)));
  }

  /** A variable counts as its first power there. */
  lemma {:induction false} VariablePowersJoin(m: Lib, x: Expr, n: real)
    requires x.Var? && n != 0.0 && n != 1.0
    ensures Simplify(m, Mul(x, x)) == Pow(x, Num(2.0))
    ensures Simplify(m, Mul(x, Pow(x, Num(n)))) == Pow(x, Num(n + 1.0)) == Simplify(m, Mul(Pow(x, Num(n)), x))
  {
    assert Simplify(m, x) == x;
    LiteralPowerStays(m, x, n);
    hide Simplify, FoldNumeric;
    VariablePowerFolds(m, x, n + 1.0);
    VariablePowerFolds(m, x, 2.0);
    ProductSimplified(m, x, x);
    ProductSimplified(m, x, Pow(x, Num(n)));
    ProductSimplified(m, Pow(x, Num(n)), x);
  }

  lemma {:induction false} VariablePowerFolds(m: Lib, x: Expr, n: real)
    requires x.Var?
    ensures FoldNumeric(m, Pow(x, Num(n))) == Pow(x, Num(n))
  {
    LiteralsStay(m, n);
    assert Simplify(m, x) == x;
    hide Simplify;
  }

  /** ln(exp(e)) and exp(ln(e)) become e, and a - (-e) becomes a + e. */
  lemma {:induction false} InversesCancel(m: Lib, e: Expr, a: Expr)
    requires IsPlainTerm(m, e) && !e.Fn?
    ensures Simplify(m, Fn(Ln, Fn(Exp, e))) == e == Simplify(m, Fn(Exp, Fn(Ln, e)))
    ensures Simplify(m, a) != Num(0.0) && Simplify(m, a) != Neg(e) ==>
              Simplify(m, Sub(a, Neg(e))) == Add(Simplify(m, Simplify(m, a)), e)
  {
    hide Simplify, FoldNumeric;
    NegationStays(m, e);
    InverseStays(m, Exp, e);
    InverseStays(m, Ln, e);
    InversesFold(m, e);
    FoldedOperands(m, Simplify(m, a), e);
    FunctionSimplified(m, Ln, Fn(Exp, e));
    FunctionSimplified(m, Exp, Fn(Ln, e));
    DifferenceSimplified(m, a, Neg(e));
  }

  lemma InversesFold(m: Lib, e: Expr)
    requires !e.Fn?
    ensures FoldNumeric(m, Fn(Ln, Fn(Exp, e))) == FoldNumeric(m, e) == FoldNumeric(m, Fn(Exp, Fn(Ln, e)))
  {
  }

  lemma FunctionSimplified(m: Lib, f: Func, a: Expr)
    ensures Simplify(m, Fn(f, a)) == FoldNumeric(m, Fn(f, Simplify(m, a)))
  {
  }

  lemma {:induction false} InverseStays(m: Lib, f: Func, e: Expr)
    requires IsPlainTerm(m, e) && !e.Fn?
    ensures Simplify(m, Fn(f, e)) == Fn(f, e)
  {
    assert CancelInverse(Fn(f, e)) == Fn(f, e);
    assert FoldNumeric(m, Fn(f, e)) == Fn(f, e);
    hide Simplify, FoldNumeric;
    FunctionSimplified(m, f, e);
  }

  // ----- what this means for the program's own evaluation -----

  /** No variable occurs. */
  predicate Closed(e: Expr) {
    match e
    case Num(_) => true
    case Var(_) => false
    case Add(a, b) => Closed(a) && Closed(b)
    case Sub(a, b) => Closed(a) && Closed(b)
    case Mul(a, b) => Closed(a) && Closed(b)
    case Div(a, b) => Closed(a) && Closed(b)
    case Pow(a, b) => Closed(a) && Closed(b)
    case Neg(a) => Closed(a)
    case Fn(_, a) => Closed(a)
  }

  lemma FoldedLiteral(m: Lib, e: Expr)
    requires e.Num?
    ensures FoldNumeric(m, e) == e
  {
  }

  // Operations on literals are folded into literals, one operation at a time.

  lemma SumSimplified(m: Lib, a: Expr, b: Expr)
    ensures Simplify(m, Add(a, b)) == FoldNumeric(m, AddRules(Simplify(m, a), Simplify(m, b)))
  {
  }

  lemma SumFolds(m: Lib, a: Expr, b: Expr)
    requires Simplify(m, a).Num? && Simplify(m, b).Num?
    ensures Simplify(m, Add(a, b)).Num?
  {
    SumSimplified(m, a, b);
    FoldedLiteral(m, AddRules(Simplify(m, a), Simplify(m, b)));
  }

  lemma DifferenceSimplified(m: Lib, a: Expr, b: Expr)
    ensures Simplify(m, Sub(a, b)) == FoldNumeric(m, SubRules(Simplify(m, a), Simplify(m, b)))
  {
  }

  lemma DifferenceFolds(m: Lib, a: Expr, b: Expr)
    requires Simplify(m, a).Num? && Simplify(m, b).Num?
    ensures Simplify(m, Sub(a, b)).Num?
  {
    DifferenceSimplified(m, a, b);
    FoldedLiteral(m, SubRules(Simplify(m, a), Simplify(m, b)));
  }

  lemma ProductSimplified(m: Lib, a: Expr, b: Expr)
    ensures Simplify(m, Mul(a, b)) == FoldNumeric(m, MulRules(Simplify(m, a), Simplify(m, b)))
  {
  }

  lemma ProductFolds(m: Lib, a: Expr, b: Expr)
    requires Simplify(m, a).Num? && Simplify(m, b).Num?
    ensures Simplify(m, Mul(a, b)).Num?
  {
    ProductSimplified(m, a, b);
    FoldedLiteral(m, MulRules(Simplify(m, a), Simplify(m, b)));
  }

  lemma QuotientSimplified(m: Lib, a: Expr, b: Expr)
    ensures Simplify(m, Div(a, b)) == FoldNumeric(m, DivRules(Simplify(m, a), Simplify(m, b)))
  {
  }

  lemma QuotientFolds(m: Lib, a: Expr, b: Expr)
    requires Simplify(m, a).Num? && Simplify(m, b).Num? && Simplify(m, b).n != 0.0
    ensures Simplify(m, Div(a, b)).Num?
  {
    QuotientSimplified(m, a, b);
    FoldedLiteral(m, DivRules(Simplify(m, a), Simplify(m, b)));
  }

  lemma PowerSimplified(m: Lib, a: Expr, b: Expr)
    ensures Simplify(m, Pow(a, b)) == FoldNumeric(m, PowRules(m, Simplify(m, a), Simplify(m, b)))
  {
  }

  lemma PowerFolds(m: Lib, a: Expr, b: Expr)
    requires Simplify(m, a).Num? && Simplify(m, b).Num? && Powf(m, Simplify(m, a).n, Simplify(m, b).n).Some?
    ensures Simplify(m, Pow(a, b)).Num?
  {
    PowerSimplified(m, a, b);
    FoldedLiteral(m, PowRules(m, Simplify(m, a), Simplify(m, b)));
  }

  lemma UnaryFolds(m: Lib, e: Expr, a: Expr)
    requires Simplify(m, a).Num?
    requires e == Neg(a) || (e.Fn? && e.arg == a && InDomain(e.f, Simplify(m, a).n))
    ensures Simplify(m, e).Num?
  {
    if e.Neg? {
      FoldedLiteral(m, NegRules(Simplify(m, a)));
    } else {
      assert CancelInverse(Fn(e.f, Simplify(m, a))) == Fn(e.f, Simplify(m, a));
    }
  }

  /** The operands of a closed expression that has a value have values themselves. */
  lemma OperandValues(m: Lib, env: Env, e: Expr)
    requires Strict(m, env, e).Some?
    ensures e.Add? || e.Sub? || e.Mul? || e.Div? ==>
              Strict(m, env, e.left).Some? && Strict(m, env, e.right).Some?
    ensures e.Div? ==> Strict(m, env, e.right).value != 0.0
    ensures e.Pow? ==>
              && Strict(m, env, e.base).Some? && Strict(m, env, e.exponent).Some?
              && Powf(m, Strict(m, env, e.base).value, Strict(m, env, e.exponent).value).Some?
    ensures e.Neg? || e.Fn? ==> Strict(m, env, e.arg).Some?
    ensures e.Fn? ==> InDomain(e.f, Strict(m, env, e.arg).value)
  {
  }

  /** A literal that an expression simplifies to is its value. */
  lemma LiteralValue(m: Lib, env: Env, e: Expr)
    requires Lawful(m) && Strict(m, env, e).Some? && Simplify(m, e).Num?
    ensures Simplify(m, e) == Num(Strict(m, env, e).value)
  {
    SimplifyRefines(m, env, e);
    assert Strict(m, env, Simplify(m, e)) == Some(Simplify(m, e).n);
  }

  /** Simplification computes: an expression without variables that has a value becomes the literal of it. */
  lemma {:induction false} ClosedExpressionsFold(m: Lib, env: Env, e: Expr)
    requires Lawful(m) && Closed(e) && Strict(m, env, e).Some?
    ensures Simplify(m, e) == Num(Strict(m, env, e).value)
  {
    OperandValues(m, env, e);
    match e {
      case Num(_) =>
      case Add(a, b) => ClosedExpressionsFold(m, env, a); ClosedExpressionsFold(m, env, b); SumFolds(m, a, b);
      case Sub(a, b) => ClosedExpressionsFold(m, env, a); ClosedExpressionsFold(m, env, b); DifferenceFolds(m, a, b);
      case Mul(a, b) => ClosedExpressionsFold(m, env, a); ClosedExpressionsFold(m, env, b); ProductFolds(m, a, b);
      case Div(a, b) => ClosedExpressionsFold(m, env, a); ClosedExpressionsFold(m, env, b); QuotientFolds(m, a, b);
      case Pow(a, b) => ClosedExpressionsFold(m, env, a); ClosedExpressionsFold(m, env, b); PowerFolds(m, a, b);
      case Neg(a) => ClosedExpressionsFold(m, env, a); UnaryFolds(m, e, a);
      case Fn(_, a) => ClosedExpressionsFold(m, env, a); UnaryFolds(m, e, a);
    }
    LiteralValue(m, env, e);
  }

  /** `simplify` keeps the value of every expression in which no symbolic 0^0 occurs. */
  lemma SimplifyKeepsValue(m: Lib, env: Env, e: Expr)
    requires Lawful(m)
    requires Evaluate(m, env, e).Some? && NoSymbolicZeroPower(m, env, e)
    ensures Evaluate(m, env, Simplify(m, e)) == Evaluate(m, env, e)
  {
    StrictAgrees(m, env, e);
    SimplifyRefines(m, env, e);
    StrictAgrees(m, env, Simplify(m, e));
  }

  /** The power rule is wrong exactly when it rewrites 0^x for a non-literal x that is 0. */
  lemma PowRulesExact(m: Lib, env: Env, base: Expr, exp: Expr)
    requires Lawful(m)
    requires Evaluate(m, env, Pow(base, exp)).Some?
    ensures Evaluate(m, env, PowRules(m, base, exp)) == Evaluate(m, env, Pow(base, exp)) <==>
            !(base == Num(0.0) && !exp.Num? && Evaluate(m, env, exp) == Some(0.0))
  {
    var bv, ev := Evaluate(m, env, base), Evaluate(m, env, exp);
    PowfSmall(m, bv.value, ev.value);
    PowfAtZero(m, ev.value);
    PowfOne(m, ev.value);
  }

  /** A symbolic 0^0: the program evaluates 0^x to 1 at x = 0, and simplifies 0^x to 0. */
  lemma SimplifyMissesSymbolicZeroPower(m: Lib)
    ensures var e := Pow(Num(0.0), Var("x"));
            && Evaluate(m, map["x" := 0.0], e) == Some(1.0)
            && Simplify(m, e) == Num(0.0)
  {
    PowfAtZero(m, 0.0);
    assert Simplify(m, Num(0.0)) == Num(0.0) && Simplify(m, Var("x")) == Var("x");
    assert PowRules(m, Num(0.0), Var("x")) == Num(0.0);
  }
}
