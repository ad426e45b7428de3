/** Sums are brought into canonical form wherever they stand: in functions, quotients, powers and products. */
module Contexts {
  import opened Wrappers
  import opened Expressions
  import opened RealFacts
  import opened Iteration
  import opened Simplification
  import opened SimplificationSound
  import opened Rewriting
  import opened LikeTerms
  import opened Equivalence
  import opened LinearSums
  import opened CanonicalSums
  import opened LinearEquivalence

  /** An expression with a place for another one. */
  datatype Context =
    | InFunction(f: Func)
    | AsDividend(other: Expr)
    | AsDivisor(other: Expr)
    | AsBase(other: Expr)
    | AsExponent(other: Expr)
    | AsFactor(other: Expr)

  function Fill(c: Context, e: Expr): Expr {
    match c
    case InFunction(f) => Fn(f, e)
    case AsDividend(other) => Div(e, other)
    case AsDivisor(other) => Div(other, e)
    case AsBase(other) => Pow(e, other)
    case AsExponent(other) => Pow(other, e)
    case AsFactor(other) => Mul(e, other)
  }

  /** What stands beside the place is left alone by every pass; a factor there is not a literal or variable. */
  ghost predicate IsInertContext(m: Lib, c: Context) {
    c.InFunction? || (Inert(m, c.other) && (c.AsFactor? ==> c.other.Fn?))
  }

  /** Neither a literal, nor a function, nor what it would be divided by. */
  predicate Fits(c: Context, s: Expr) {
    !s.Num? && !s.Fn? && (!c.InFunction? ==> s != c.other)
  }

  // ----- one pass -----

  lemma IdentitiesInside(m: Lib, c: Context, e: Expr, l: Expr)
    requires IsInertContext(m, c) && ApplyPythagoras(m, e) == l == CancelExpLog(l) && !l.Fn?
    ensures ApplyPythagoras(m, Fill(c, e)) == Fill(c, l) == CancelExpLog(Fill(c, l))
  {
  }

  lemma ExpansionInside(m: Lib, c: Context, l: Expr)
    requires IsInertContext(m, c) && Expand(m, l) == l == Distribute(l) && !l.Num?
    ensures Expand(m, Fill(c, l)) == Fill(c, l)
  {
    hide Simplify;
    if c.AsFactor? { assert DistributeProduct(l, c.other) == Mul(l, c.other); }
  }

  lemma CollectionInside(m: Lib, c: Context, l: Expr)
    requires IsInertContext(m, c)
    ensures CollectLikeTerms(m, Fill(c, l)) == Fill(c, CollectLikeTerms(m, l))
  {
    hide CollectAddPair;
  }

  lemma StructureInside(m: Lib, c: Context, s: Expr)
    requires IsInertContext(m, c) && NegDistribute(s) == s == CanonicalizeDiv(s) && !s.Num?
    ensures NegDistribute(Fill(c, s)) == Fill(c, s) == CanonicalizeDiv(Fill(c, s))
  {
  }

  lemma {:induction false} SimplifiedInside(m: Lib, c: Context, s: Expr)
    requires IsInertContext(m, c) && Simplify(m, s) == s && Fits(c, s)
    ensures Simplify(m, Fill(c, s)) == Fill(c, s)
  {
    if c.InFunction? {
      FunctionSimplified(m, c.f, s);
      assert FoldNumeric(m, Fn(c.f, s)) == Fn(c.f, s);
    } else {
      assert !c.other.Num? && Simplify(m, c.other) == c.other;
      hide Simplify, FoldNumeric, Inert;
      match c
      case AsDividend(other) => QuotientStays(m, s, other);
      case AsDivisor(other) => QuotientStays(m, other, s);
      case AsBase(other) => PowerStaysPut(m, s, other);
      case AsExponent(other) => PowerStaysPut(m, other, s);
      case AsFactor(other) =>
        ProductSimplified(m, s, other);
        FoldedOperands(m, s, other);
    }
  }

  lemma {:induction false} QuotientStays(m: Lib, a: Expr, b: Expr)
    requires Simplify(m, a) == a && Simplify(m, b) == b && !a.Num? && !b.Num? && a != b
    ensures Simplify(m, Div(a, b)) == Div(a, b)
  {
    OperandsSimplifiedTwice(m, a, b);
  }

  lemma {:induction false} PowerStaysPut(m: Lib, a: Expr, b: Expr)
    requires Simplify(m, a) == a && Simplify(m, b) == b && !a.Num? && !b.Num?
    ensures Simplify(m, Pow(a, b)) == Pow(a, b)
  {
    hide Simplify, FoldNumeric;
    PowerSimplified(m, a, b);
    FoldedOperands(m, a, b);
  }

  // ----- one round -----

  /** The forms that the later passes of a round leave as they are. */
  ghost predicate IsStable(m: Lib, s: Expr) {
    CollectLikeTerms(m, s) == s == Simplify(m, s) && NegDistribute(s) == s == CanonicalizeDiv(s)
  }

  /** What one round makes of the content, it makes of it in its place. */
  lemma {:induction false} RoundInside(m: Lib, c: Context, e: Expr, l: Expr, s: Expr)
    requires IsInertContext(m, c) && Fits(c, s) && IsStable(m, s)
    requires ApplyPythagoras(m, e) == l == CancelExpLog(l) && Expand(m, l) == l == Distribute(l)
    requires !l.Fn? && !l.Num? && Simplify(m, CollectLikeTerms(m, l)) == s == CollectLikeTerms(m, l)
    ensures Round(m, Fill(c, e)) == Fill(c, s) && Round(m, e) == s
  {
    IdentitiesInside(m, c, e, l);
    ExpansionInside(m, c, l);
    CollectionInside(m, c, l);
    CollectionInside(m, c, s);
    StructureInside(m, c, s);
    SimplifiedInside(m, c, s);
  }

  // ----- sums -----

  lemma {:induction false} LinearDistributed(m: Lib, atoms: set<Expr>, e: Expr)
    requires AllInert(m, atoms) && Linear(atoms, e)
    ensures Distribute(e) == e
  {
    if e in atoms {
    } else if IsMultiple(atoms, e) {
      assert Distribute(e) == DistributeProduct(e.left, e.right) == e;
    } else {
      match e
      case Add(a, b) => LinearDistributed(m, atoms, a); LinearDistributed(m, atoms, b);
      case Sub(a, b) => LinearDistributed(m, atoms, a); LinearDistributed(m, atoms, b);
      case Neg(a) => LinearDistributed(m, atoms, a);
      case _ =>
    }
  }

  /** A canonical sum is left alone by every pass. */
  lemma CanonicalSumStays(m: Lib, atoms: set<Expr>, s: Expr)
    requires AllInert(m, atoms) && IsCanonicalSum(m, atoms, s)
    ensures IsStable(m, s) && ApplyPythagoras(m, s) == s == CancelExpLog(s) && Expand(m, s) == s == Distribute(s)
  {
    var ts :| IsChainOf(m, atoms, s, ts);
    hide Simplify, CollectLikeTerms, ApplyPythagoras, Distribute, Expand, CancelExpLog, Arranged;
    ChainShape(m, atoms, ts);
    LinearDistributed(m, atoms, s);
    PassesWithoutEffect(m, atoms, s);
    PythagorasKeepsChain(m, atoms, ts);
    CollectKeepsChain(m, atoms, ts);
    ChainSimplified(m, atoms, ts);
    NegDistributeKeepsChain(m, atoms, ts);
  }

  /**
    A sum of untouched terms, possibly after sin^2 and cos^2 have met in it, is brought
    into its canonical form inside a function, a quotient, a power or a product just as it
    is when it stands alone.
    */
  lemma {:induction false} SumsCanonicalizedInside(m: Lib, atoms: set<Expr>, c: Context, e: Expr)
    requires AllInert(m, atoms) && IsInertContext(m, c)
    requires var l := ApplyPythagoras(m, e); (l.Add? || l.Sub?) && Linear(atoms, l)
    requires Fits(c, Round(m, e))
    ensures IsCanonicalSum(m, atoms, Round(m, e)) && SameCoefficients(m, ApplyPythagoras(m, e), Round(m, e))
    ensures CanonicalizesTo(m, Fill(c, e), Fill(c, Round(m, e)))
    ensures Equivalent(m, Fill(c, e), Fill(c, Round(m, e)))
  {
    var l := ApplyPythagoras(m, e);
    var s := CollectLikeTerms(m, l);
    hide Simplify, CollectLikeTerms, ApplyPythagoras, Distribute, Expand, CancelExpLog, Round, Linear, Equivalent;
    LinearDistributed(m, atoms, l);
    PassesWithoutEffect(m, atoms, l);
    CollectLinear(m, atoms, l);
    CanonicalSumStays(m, atoms, s);
    RoundAlone(m, e, l, s);
    RoundInside(m, c, e, l, s);
    RoundInside(m, c, s, s, s);
    ReachedInOneRound(m, Fill(c, e), Fill(c, s));
  }

  lemma RoundAlone(m: Lib, e: Expr, l: Expr, s: Expr)
    requires ApplyPythagoras(m, e) == l == CancelExpLog(l) && Expand(m, l) == l
    requires CollectLikeTerms(m, l) == s && IsStable(m, s)
    ensures Round(m, e) == s
  {
  }

  lemma ReachedInOneRound(m: Lib, e: Expr, r: Expr)
    requires Round(m, e) == r == Round(m, r)
    ensures CanonicalizesTo(m, e, r) && CanonicalizesTo(m, r, r) && Equivalent(m, e, r)
  {
    hide Round;
    RoundOfIsRound(m, e);
    RoundOfIsRound(m, r);
    assert Iterate(RoundOf(m), e, 1) == Iterate(RoundOf(m), RoundOf(m)(e), 0) == r;
    assert Iterate(RoundOf(m), r, 0) == r;
    assert EquivalentVia(m, e, r, r, r);
  }

  lemma PythagorasBelow(m: Lib, a: Expr, b: Expr)
    ensures ApplyPythagoras(m, Sub(a, b)) == Sub(ApplyPythagoras(m, a), ApplyPythagoras(m, b))
    ensures ApplyPythagoras(m, Neg(a)) == Neg(ApplyPythagoras(m, a))
  {
  }

  lemma LinearBelow(atoms: set<Expr>, a: Expr, b: Expr)
    requires Linear(atoms, a) && Linear(atoms, b)
    ensures Linear(atoms, Sub(a, b)) && Linear(atoms, Neg(a))
  {
  }

  /** sin^2 and cos^2 also meet on both sides of a difference, and under a negation. */
  lemma PythagorasInDifferences(m: Lib, atoms: set<Expr>, a: Expr, b: Expr)
    requires AllInert(m, atoms) && Linear(atoms, ApplyPythagoras(m, a)) && Linear(atoms, ApplyPythagoras(m, b))
    ensures SameCoefficients(m, Sub(ApplyPythagoras(m, a), ApplyPythagoras(m, b)), Round(m, Sub(a, b)))
    ensures SameCoefficients(m, Neg(ApplyPythagoras(m, a)), Round(m, Neg(a)))
  {
    var d, n := Sub(ApplyPythagoras(m, a), ApplyPythagoras(m, b)), Neg(ApplyPythagoras(m, a));
    PythagorasBelow(m, a, b);
    LinearBelow(atoms, ApplyPythagoras(m, a), ApplyPythagoras(m, b));
    hide ApplyPythagoras, Linear, AllInert, Round, SameCoefficients, Expand, CancelExpLog;
    PassesWithoutEffect(m, atoms, d);
    PassesWithoutEffect(m, atoms, n);
    RoundAfterExpansion(m, atoms, Sub(a, b), d);
    RoundAfterExpansion(m, atoms, Neg(a), n);
  }
}
