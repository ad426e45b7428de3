/**
  Linear combinations of terms that no pass touches. The passes keep them linear and
  keep the summed coefficient of every key, so the loop of `canonicalize` stops on them
  and `equivalent` decides whether the summed coefficients are the same.
  */
module LinearSums {
  import opened Wrappers
  import opened Expressions
  import opened RealFacts
  import opened Iteration
  import opened Ordering
  import opened Simplification
  import opened Rewriting
  import opened RewritingSound
  import opened LikeTerms
  import opened LikeTermsSound
  import opened Equivalence

  // ----- linear combinations -----

  /** A term that every pass leaves alone and extraction takes as a whole, with coefficient 1. */
  ghost predicate Inert(m: Lib, e: Expr) {
    && !(e.Num? || e.Add? || e.Sub? || e.Neg?) && (e.Mul? ==> !e.left.Num? && !e.right.Num?)
    && !IsSquareOf(e, Sin) && !IsSquareOf(e, Cos) && m.show(e) != "1"
    && ApplyPythagoras(m, e) == e && CancelExpLog(e) == e && Distribute(e) == e && Expand(m, e) == e
    && CollectLikeTerms(m, e) == e && Simplify(m, e) == e && FoldNumeric(m, e) == e
    && NegDistribute(e) == e && CanonicalizeDiv(e) == e
  }

  ghost predicate AllInert(m: Lib, atoms: set<Expr>) {
    forall a | a in atoms :: Inert(m, a)
  }

  /** An atom times a literal. */
  predicate IsMultiple(atoms: set<Expr>, e: Expr) {
    e.Mul? && ((e.left.Num? && e.right in atoms) || (e.right.Num? && e.left in atoms))
  }

  /** Literals, atoms and multiples of atoms under sums, differences and negations. */
  predicate Linear(atoms: set<Expr>, e: Expr) {
    || e in atoms || IsMultiple(atoms, e)
    || match e
       case Num(_) => true
       case Add(a, b) => Linear(atoms, a) && Linear(atoms, b)
       case Sub(a, b) => Linear(atoms, a) && Linear(atoms, b)
       case Neg(a) => Linear(atoms, a)
       case _ => false
  }

  /** The summed coefficient of the terms of `e` with this key. */
  function Coefficient(m: Lib, e: Expr, key: string): real {
    CoefficientOf(m, ExtractTerms(e), key)
  }

  ghost predicate SameCoefficients(m: Lib, a: Expr, b: Expr) {
    forall key: string :: Coefficient(m, a, key) == Coefficient(m, b, key)
  }

  lemma {:induction false} CoefficientAppend(m: Lib, a: seq<Term>, b: seq<Term>, key: string)
    ensures CoefficientOf(m, a + b, key) == CoefficientOf(m, a, key) + CoefficientOf(m, b, key)
  {
    if a == [] {
      assert a + b == b;
    } else {
      assert (a + b)[0] == a[0] && (a + b)[1..] == a[1..] + b;
      CoefficientAppend(m, a[1..], b, key);
    }
  }

  lemma {:induction false} CoefficientNegated(m: Lib, ts: seq<Term>, key: string)
    ensures CoefficientOf(m, Negated(ts), key) == -CoefficientOf(m, ts, key)
  {
    if ts != [] {
      CoefficientNegated(m, ts[1..], key);
      assert Negated(ts)[0] == ts[0].(coeff := -ts[0].coeff) && Negated(ts)[1..] == Negated(ts[1..]);
    }
  }

  /** Coefficients add up along sums, differences and negations. */
  lemma CoefficientSums(m: Lib, a: Expr, b: Expr, key: string)
    ensures Coefficient(m, Add(a, b), key) == Coefficient(m, a, key) + Coefficient(m, b, key)
    ensures Coefficient(m, Sub(a, b), key) == Coefficient(m, a, key) - Coefficient(m, b, key)
    ensures Coefficient(m, Neg(a), key) == -Coefficient(m, a, key)
  {
    CoefficientAppend(m, ExtractTerms(a), ExtractTerms(b), key);
    CoefficientAppend(m, ExtractTerms(a), Negated(ExtractTerms(b)), key);
    CoefficientNegated(m, ExtractTerms(a), key);
    CoefficientNegated(m, ExtractTerms(b), key);
  }

  lemma SameSums(m: Lib, a: Expr, b: Expr, a': Expr, b': Expr)
    requires SameCoefficients(m, a, a') && SameCoefficients(m, b, b')
    ensures SameCoefficients(m, Add(a, b), Add(a', b')) && SameCoefficients(m, Sub(a, b), Sub(a', b'))
    ensures SameCoefficients(m, Neg(a), Neg(a')) && SameCoefficients(m, Neg(Sub(a, b)), Sub(b', a'))
    ensures SameCoefficients(m, Neg(Add(a, b)), Add(Neg(a'), Neg(b'))) && SameCoefficients(m, Neg(Neg(a)), a')
  {
    forall key: string
      ensures Coefficient(m, Add(a, b), key) == Coefficient(m, Add(a', b'), key)
      ensures Coefficient(m, Sub(a, b), key) == Coefficient(m, Sub(a', b'), key)
      ensures Coefficient(m, Neg(a), key) == Coefficient(m, Neg(a'), key)
      ensures Coefficient(m, Neg(Sub(a, b)), key) == Coefficient(m, Sub(b', a'), key)
      ensures Coefficient(m, Neg(Add(a, b)), key) == Coefficient(m, Add(Neg(a'), Neg(b')), key)
      ensures Coefficient(m, Neg(Neg(a)), key) == Coefficient(m, a', key)
    {
      assert Coefficient(m, a, key) == Coefficient(m, a', key) && Coefficient(m, b, key) == Coefficient(m, b', key);
      CoefficientSums(m, a, b, key); CoefficientSums(m, a', b', key); CoefficientSums(m, b', a', key);
      CoefficientSums(m, Sub(a, b), a, key); CoefficientSums(m, Add(a, b), a, key); CoefficientSums(m, Neg(a), a, key);
      CoefficientSums(m, Neg(a'), Neg(b'), key);
    }
  }

  /** A term of a linear combination: a constant, or an atom with a coefficient. */
  predicate IsTermOver(atoms: set<Expr>, t: Term) {
    if t.isConst then t.factor == Num(1.0) else t.factor in atoms
  }

  lemma {:induction false} NegatedOver(atoms: set<Expr>, ts: seq<Term>)
    requires forall t | t in ts :: IsTermOver(atoms, t)
    ensures forall t | t in Negated(ts) :: IsTermOver(atoms, t)
  {
    if ts != [] {
      NegatedOver(atoms, ts[1..]);
      assert ts[0] in ts;
    }
  }

  lemma {:induction false} TermsOfLinear(m: Lib, atoms: set<Expr>, e: Expr)
    requires AllInert(m, atoms) && Linear(atoms, e)
    ensures forall t | t in ExtractTerms(e) :: IsTermOver(atoms, t)
    ensures e in atoms ==> ExtractTerms(e) == [Term(1.0, e, false)]
    ensures IsMultiple(atoms, e) ==>
              ExtractTerms(e) ==
              [if e.left.Num? then Term(e.left.n, e.right, false) else Term(e.right.n, e.left, false)]
  {
    if e in atoms || IsMultiple(atoms, e) {
    } else {
      match e
      case Add(a, b) => TermsOfLinear(m, atoms, a); TermsOfLinear(m, atoms, b);
      case Sub(a, b) =>
        TermsOfLinear(m, atoms, a); TermsOfLinear(m, atoms, b);
        NegatedOver(atoms, ExtractTerms(b));
      case Neg(a) =>
        TermsOfLinear(m, atoms, a);
        NegatedOver(atoms, ExtractTerms(a));
      case _ =>
    }
  }

  // ----- the passes other than collection -----

  /** Cancelling, expansion and the treatment of divisors find nothing to do. */
  lemma {:induction false} PassesWithoutEffect(m: Lib, atoms: set<Expr>, e: Expr)
    requires AllInert(m, atoms) && Linear(atoms, e)
    ensures CancelExpLog(e) == e && Expand(m, e) == e && CanonicalizeDiv(e) == e
  {
    if e in atoms {
    } else if IsMultiple(atoms, e) {
      assert Distribute(e) == DistributeProduct(e.left, e.right) == e;
    } else {
      match e
      case Add(a, b) => PassesWithoutEffect(m, atoms, a); PassesWithoutEffect(m, atoms, b);
      case Sub(a, b) => PassesWithoutEffect(m, atoms, a); PassesWithoutEffect(m, atoms, b);
      case Neg(a) => PassesWithoutEffect(m, atoms, a);
      case _ =>
    }
  }

  /** Moving negations inwards keeps the coefficients. */
  lemma {:induction false} NegDistributeLinear(m: Lib, atoms: set<Expr>, e: Expr)
    requires AllInert(m, atoms) && Linear(atoms, e)
    ensures Linear(atoms, NegDistribute(e)) && SameCoefficients(m, e, NegDistribute(e))
    decreases Weight(e)
  {
    if e in atoms || IsMultiple(atoms, e) {
      assert NegDistribute(e) == e;
    } else {
      match e
      case Neg(a) => NegationLinear(m, atoms, a);
      case Add(a, b) =>
        NegDistributeLinear(m, atoms, a); NegDistributeLinear(m, atoms, b);
        SameSums(m, a, b, NegDistribute(a), NegDistribute(b));
      case Sub(a, b) =>
        NegDistributeLinear(m, atoms, a); NegDistributeLinear(m, atoms, b);
        SameSums(m, a, b, NegDistribute(a), NegDistribute(b));
      case _ =>
    }
  }

  lemma {:induction false} NegationLinear(m: Lib, atoms: set<Expr>, inner: Expr)
    requires AllInert(m, atoms) && Linear(atoms, inner)
    ensures var r := NegDistribute(Neg(inner)); Linear(atoms, r) && SameCoefficients(m, Neg(inner), r)
    decreases Weight(Neg(inner)), 0
  {
    if inner in atoms || IsMultiple(atoms, inner) {
      assert NegDistribute(inner) == inner;
      assert NegDistribute(Neg(inner)) == Neg(NegDistribute(inner));
    } else {
      hide SameCoefficients, IsMultiple;
      match inner
      case Sub(a, b) =>
        assert Weight(inner) == Weight(a) + 2 * Weight(b) + 1;
        NegDistributeLinear(m, atoms, a); NegDistributeLinear(m, atoms, b);
        NegatedSums(m, a, b, NegDistribute(a), NegDistribute(b));
      case Add(a, b) =>
        assert Weight(inner) == Weight(a) + Weight(b) + 1;
        NegDistributeLinear(m, atoms, Neg(a)); NegDistributeLinear(m, atoms, Neg(b));
        NegatedSums(m, a, b, NegDistribute(Neg(a)), NegDistribute(Neg(b)));
      case Neg(a) =>
        assert Weight(inner) == 2 * Weight(a);
        NegDistributeLinear(m, atoms, a);
        NegatedSums(m, a, a, NegDistribute(a), NegDistribute(a));
      case Num(n) => NegatedLiteral(m, n);
      case _ =>
    }
  }

  lemma NegatedLiteral(m: Lib, n: real)
    ensures SameCoefficients(m, Neg(Num(n)), Num(-n))
  {
    assert [Term(n, Num(1.0), true)][1..] == [];
    assert ExtractTerms(Neg(Num(n))) == Negated([Term(n, Num(1.0), true)]) == [Term(-n, Num(1.0), true)];
    assert ExtractTerms(Num(-n)) == [Term(-n, Num(1.0), true)];
  }

  lemma NegatedSums(m: Lib, a: Expr, b: Expr, a': Expr, b': Expr)
    ensures SameCoefficients(m, a, a') && SameCoefficients(m, b, b') ==>
              SameCoefficients(m, Neg(Sub(a, b)), Sub(b', a')) && SameCoefficients(m, Neg(Neg(a)), a')
    ensures SameCoefficients(m, Neg(a), a') && SameCoefficients(m, Neg(b), b') ==>
              SameCoefficients(m, Neg(Add(a, b)), Add(a', b'))
  {
    if SameCoefficients(m, a, a') && SameCoefficients(m, b, b') { SameSums(m, a, b, a', b'); }
    if SameCoefficients(m, Neg(a), a') && SameCoefficients(m, Neg(b), b') {
      SameSums(m, Neg(a), Neg(b), a', b');
      SameSums(m, a, b, a, b);
    }
  }

  // ----- the Pythagorean rewrite -----

  function TermsOfAll(ts: seq<Expr>): seq<Term> {
    if ts == [] then [] else ExtractTerms(ts[0]) + TermsOfAll(ts[1..])
  }

  lemma {:induction false} TermsOfAllAppend(a: seq<Expr>, b: seq<Expr>)
    ensures TermsOfAll(a + b) == TermsOfAll(a) + TermsOfAll(b)
  {
    if a == [] {
      assert a + b == b;
    } else {
      assert (a + b)[0] == a[0] && (a + b)[1..] == a[1..] + b;
      TermsOfAllAppend(a[1..], b);
    }
  }

  lemma TermsOfOne(e: Expr)
    ensures TermsOfAll([e]) == ExtractTerms(e)
  {
    assert TermsOfAll([e][1..]) == [];
  }

  predicate NoSquare(e: Expr) {
    !IsSquareOf(e, Sin) && !IsSquareOf(e, Cos)
  }

  lemma {:induction false} FlattenLinear(m: Lib, atoms: set<Expr>, e: Expr)
    requires AllInert(m, atoms) && Linear(atoms, e)
    ensures forall t | t in FlattenSum(e) :: Linear(atoms, t) && NoSquare(t)
    ensures TermsOfAll(FlattenSum(e)) == ExtractTerms(e)
  {
    match e
    case Add(a, b) =>
      FlattenLinear(m, atoms, a); FlattenLinear(m, atoms, b);
      TermsOfAllAppend(FlattenSum(a), FlattenSum(b));
    case Sub(a, b) =>
      FlattenLinear(m, atoms, a);
      TermsOfAllAppend(FlattenSum(a), [Neg(b)]);
      TermsOfOne(Neg(b));
    case _ => TermsOfOne(e);
  }

  lemma {:induction false} RebuildLinear(atoms: set<Expr>, ts: seq<Expr>)
    requires ts != [] && forall t | t in ts :: Linear(atoms, t)
    ensures Linear(atoms, RebuildSum(ts)) && ExtractTerms(RebuildSum(ts)) == TermsOfAll(ts)
  {
    var last := |ts| - 1;
    TermsOfOne(ts[last]);
    assert ts == ts[..last] + [ts[last]];
    if last > 0 {
      RebuildLinear(atoms, ts[..last]);
      TermsOfAllAppend(ts[..last], [ts[last]]);
    }
  }

  lemma {:induction false} ScanFindsNothing(m: Lib, ts: seq<Expr>, i: nat)
    requires i <= |ts| && forall t | t in ts :: NoSquare(t)
    ensures PythagoreanScan(m, ts, i) == (ts, false)
    decreases |ts| - i
  {
    if i < |ts| {
      assert ts[i] in ts;
      assert FindPartner(m, ts, ts[i], i + 1) == |ts|;
      ScanFindsNothing(m, ts, i + 1);
    }
  }

  /** The Pythagorean rewrite at most changes how the sum is associated. */
  lemma {:induction false} PythagorasLinear(m: Lib, atoms: set<Expr>, e: Expr)
    requires AllInert(m, atoms) && Linear(atoms, e)
    ensures Linear(atoms, ApplyPythagoras(m, e)) && ExtractTerms(ApplyPythagoras(m, e)) == ExtractTerms(e)
  {
    if e in atoms || IsMultiple(atoms, e) {
    } else {
      match e
      case Add(_, _) =>
        FlattenLinear(m, atoms, e);
        ScanFindsNothing(m, FlattenSum(e), 0);
        RebuildLinear(atoms, FlattenSum(e));
      case Sub(a, b) => PythagorasLinear(m, atoms, a); PythagorasLinear(m, atoms, b);
      case Neg(a) => PythagorasLinear(m, atoms, a);
      case _ =>
    }
  }
}
