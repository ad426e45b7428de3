/** Grouping by printed form merges unlike terms, and `equivalent` then errs. */
module Collisions {
  import opened Wrappers
  import opened Expressions
  import opened Simplification
  import opened Rewriting
  import opened LikeTerms
  import opened LikeTermsSound
  import opened Equivalence
  import opened LinearSums
  import opened LinearEquivalence
  import opened Printing
  import opened PrintedKeys

  /** Quotients of variables in which no quotient divides a thing by itself. */
  predicate QuotientOfVariables(e: Expr) {
    || (e.Var? && e.name != "1")
    || (e.Div? && e.left != e.right && QuotientOfVariables(e.left) && QuotientOfVariables(e.right))
  }

  /** The passes leave such quotients alone. */
  lemma {:induction false} PassesKeepQuotients(m: Lib, e: Expr)
    requires QuotientOfVariables(e)
    ensures ApplyPythagoras(m, e) == e && CancelExpLog(e) == e && Expand(m, e) == e
    ensures CollectLikeTerms(m, e) == e && NegDistribute(e) == e && CanonicalizeDiv(e) == e
  {
    if e.Div? {
      PassesKeepQuotients(m, e.left);
      PassesKeepQuotients(m, e.right);
    }
  }

  lemma {:induction false} SimplifyKeepsQuotients(m: Lib, e: Expr)
    requires QuotientOfVariables(e)
    ensures Simplify(m, e) == e && FoldNumeric(m, e) == e
  {
    if e.Div? {
      SimplifyKeepsQuotients(m, e.left);
      SimplifyKeepsQuotients(m, e.right);
      assert DivRules(e.left, e.right) == e;
      assert FoldNumeric(m, e) == e;
    }
  }

  lemma QuotientIsInert(m: Lib, e: Expr)
    requires UsesPrintedKeys(m) && QuotientOfVariables(e)
    ensures Inert(m, e)
  {
    PassesKeepQuotients(m, e);
    SimplifyKeepsQuotients(m, e);
    assert m.show(e) == Print(e);
    if e.Div? {
      var left := Operand(e.left, DivPrec);
      assert Print(e)[|left|] == '/';
    }
  }

  /** Quotients of variables are reported equivalent exactly when they print alike. */
  lemma QuotientsDecidedByPrint(m: Lib, a: Expr, b: Expr)
    requires UsesPrintedKeys(m) && QuotientOfVariables(a) && QuotientOfVariables(b)
    ensures Equivalent(m, a, b) <==> Print(a) == Print(b)
  {
    QuotientIsInert(m, a);
    QuotientIsInert(m, b);
    InertEquivalentExact(m, a, b);
    assert m.show(a) == Print(a) && m.show(b) == Print(b);
  }

  /** a / (b / c) and (a / b) / c print alike, although they differ in value. */
  lemma QuotientsPrintAlike(a: string, b: string, c: string)
    ensures Print(Div(Var(a), Div(Var(b), Var(c)))) == Print(Div(Div(Var(a), Var(b)), Var(c)))
  {
    var x, y, z := Var(a), Var(b), Var(c);
    assert Print(x) == Operand(x, DivPrec) == a;
    assert Print(y) == Operand(y, DivPrec) == b;
    assert Print(z) == Operand(z, DivPrec) == c;
    assert Operand(Div(y, z), DivPrec) == Print(Div(y, z)) == b + "/" + c;
    assert Operand(Div(x, y), DivPrec) == Print(Div(x, y)) == a + "/" + b;
    assert Print(Div(x, Div(y, z))) == a + "/" + (b + "/" + c);
    assert Print(Div(Div(x, y), z)) == (a + "/" + b) + "/" + c;
  }

  /** The two groupings of a quotient, at one assignment. */
  lemma QuotientValues(m: Lib, env: Env)
    requires Lookup(m, env, "a") == Some(8.0) && Lookup(m, env, "b") == Some(4.0) && Lookup(m, env, "c") == Some(2.0)
    ensures var l, r := Div(Var("a"), Div(Var("b"), Var("c"))), Div(Div(Var("a"), Var("b")), Var("c"));
            Evaluate(m, env, l) == Some(4.0) && Evaluate(m, env, r) == Some(1.0)
  {
    var a, b, c := Var("a"), Var("b"), Var("c");
    assert Evaluate(m, env, Div(b, c)) == Some(2.0) == Evaluate(m, env, Div(a, b));
  }

  /**
    With printed keys the program reports a / (b / c) and (a / b) / c as equivalent;
    at a = 8, b = 4, c = 2 they are 4 and 1.
    */
  lemma EquivalentErrsOnPrintedKeys(m: Lib)
    requires UsesPrintedKeys(m)
    ensures
      var l, r := Div(Var("a"), Div(Var("b"), Var("c"))), Div(Div(Var("a"), Var("b")), Var("c"));
      var env: Env := map["a" := 8.0, "b" := 4.0, "c" := 2.0];
      Equivalent(m, l, r) && Evaluate(m, env, l) == Some(4.0) && Evaluate(m, env, r) == Some(1.0)
  {
    var a, b, c := Var("a"), Var("b"), Var("c");
    QuotientsPrintAlike("a", "b", "c");
    assert QuotientOfVariables(Div(b, c)) && QuotientOfVariables(Div(a, b));
    hide Print, Evaluate, Equivalent;
    QuotientsDecidedByPrint(m, Div(a, Div(b, c)), Div(Div(a, b), c));
    QuotientValues(m, map["a" := 8.0, "b" := 4.0, "c" := 2.0]);
  }

  /** Literals are printed with ten decimals, so small divisors print alike. */
  lemma SmallDivisorsPrintAlike(x: Expr)
    ensures Print(Div(x, Num(0.00000000001))) == Print(Div(x, Num(0.00000000002)))
  {
    var p, q := 0.00000000001, 0.00000000002;
    SmallNumberPrinted(p);
    SmallNumberPrinted(q);
    LiteralDivisorPrinted(x, p);
    LiteralDivisorPrinted(x, q);
    hide *;
  }

  lemma LiteralDivisorPrinted(x: Expr, d: real)
    ensures Print(Div(x, Num(d))) == Operand(x, DivPrec) + "/" + PrintNum(d)
  {
    hide PrintNum;
    assert Operand(Num(d), DivPrec) == Print(Num(d));
  }

  lemma SmallNumberPrinted(x: real)
    requires 0.0 < x < 0.00000000005
    ensures PrintNum(x) == Decimal(0) + "." + Fixed(0, 10)
  {
    SmallMagnitudePrinted(x);
    hide PrintDecimals, Decimal, Fixed;
    assert x.Floor == 0;
  }

  lemma SmallMagnitudePrinted(x: real)
    requires 0.0 < x < 0.00000000005
    ensures PrintDecimals(x) == Decimal(0) + "." + Fixed(0, 10)
  {
    hide Decimal, Fixed, StripZeros;
    assert 0.0 < x * 10_000_000_000.0 < 0.5;
  }

  /** With printed keys x / 10^-11 - x / (2 * 10^-11) is reported to be 0; at x = 1 it is 5 * 10^10. */
  lemma SmallDivisorsCollide(m: Lib)
    requires UsesPrintedKeys(m)
    ensures
      var d := Sub(Div(Var("x"), Num(0.00000000001)), Div(Var("x"), Num(0.00000000002)));
      Equivalent(m, d, Num(0.0)) && Evaluate(m, map["x" := 1.0], d) == Some(50_000_000_000.0)
  {
    var x, p, q := Var("x"), 0.00000000001, 0.00000000002;
    SmallDivisorsPrintAlike(x);
    assert m.show(Div(x, Num(p))) == Print(Div(x, Num(p))) && m.show(Div(x, Num(q))) == Print(Div(x, Num(q)));
    QuotientIsInert(m, x);
    QuotientDifferenceExact(m, x, p, q);
    DivisorValues(m, map["x" := 1.0], x, p, q);
  }

  lemma DivisorValues(m: Lib, env: Env, x: Expr, p: real, q: real)
    requires Evaluate(m, env, x) == Some(1.0) && p == 0.00000000001 && q == 0.00000000002
    ensures Evaluate(m, env, Sub(Div(x, Num(p)), Div(x, Num(q)))) == Some(50_000_000_000.0)
  {
    assert Evaluate(m, env, Num(p)) == Some(p) && Evaluate(m, env, Num(q)) == Some(q);
    assert Evaluate(m, env, Div(x, Num(p))) == Some(100_000_000_000.0);
    assert Evaluate(m, env, Div(x, Num(q))) == Some(50_000_000_000.0);
  }
}
