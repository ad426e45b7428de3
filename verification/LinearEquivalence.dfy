/** On linear combinations the loop of `canonicalize` stops, and `equivalent` decides. */
module LinearEquivalence {
  import opened Wrappers
  import opened Expressions
  import opened RealFacts
  import opened Iteration
  import opened Simplification
  import opened SimplificationSound
  import opened Rewriting
  import opened RewritingSound
  import opened LikeTerms
  import opened LikeTermsSound
  import opened Equivalence
  import opened LinearSums
  import opened CanonicalSums

  // ----- what collection leaves -----

  /** A literal, an atom or a multiple of one. */
  predicate IsUnit(atoms: set<Expr>, e: Expr) {
    e.Num? || e in atoms || IsMultiple(atoms, e)
  }

  predicate IsSignedUnit(atoms: set<Expr>, e: Expr) {
    IsUnit(atoms, e) || (e.Neg? && IsUnit(atoms, e.arg) && !e.arg.Num?)
  }

  ghost predicate IsChainOf(m: Lib, atoms: set<Expr>, e: Expr, ts: seq<Term>) {
    Arranged(m, atoms, ts) && e == Chain(ts)
  }

  ghost predicate IsCanonicalSum(m: Lib, atoms: set<Expr>, e: Expr) {
    exists ts: seq<Term> :: IsChainOf(m, atoms, e, ts)
  }

  /** What negating a difference in canonical form leaves. */
  ghost predicate IsSwapped(m: Lib, atoms: set<Expr>, e: Expr) {
    e.Sub? && IsCanonicalSum(m, atoms, Sub(e.right, e.left))
  }

  ghost predicate IsCollected(m: Lib, atoms: set<Expr>, e: Expr) {
    Linear(atoms, e) && (IsSignedUnit(atoms, e) || IsCanonicalSum(m, atoms, e) || IsSwapped(m, atoms, e))
  }

  /** A canonical sum is a sum or a difference, or a signed unit. */
  lemma ChainShape(m: Lib, atoms: set<Expr>, ts: seq<Term>)
    requires AllInert(m, atoms) && Arranged(m, atoms, ts)
    ensures Linear(atoms, Chain(ts))
    ensures Chain(ts).Add? || Chain(ts).Sub? || IsSignedUnit(atoms, Chain(ts))
    ensures |ts| >= 2 <==> Chain(ts).Add? || Chain(ts).Sub?
    ensures forall key :: Coefficient(m, Chain(ts), key) == CoefficientOf(m, ts, key)
  {
    if ts == [] {
      forall key ensures Coefficient(m, Chain(ts), key) == CoefficientOf(m, ts, key) {
        ZeroTerm(m, Num(0.0), key);
      }
    } else {
      ChainTerms(m, atoms, ts);
      assert ts[|ts| - 1] in ts;
      PieceIsAtomic(m, atoms, ts[|ts| - 1]);
    }
  }

  lemma ZeroTerm(m: Lib, e: Expr, key: string)
    requires e == Num(0.0)
    ensures Coefficient(m, e, key) == 0.0
  {
    assert ExtractTerms(e) == [Term(0.0, Num(1.0), true)];
    assert CoefficientOf(m, ExtractTerms(e)[1..], key) == 0.0;
  }

  /** Collecting a sum of linear combinations leaves a canonical sum with the same coefficients. */
  lemma CollectedSum(m: Lib, atoms: set<Expr>, a: Expr, b: Expr)
    requires AllInert(m, atoms) && Linear(atoms, a) && Linear(atoms, b)
    ensures var r := CollectAddPair(m, a, b);
            IsCanonicalSum(m, atoms, r) && IsCollected(m, atoms, r) && SameCoefficients(m, Add(a, b), r)
  {
    TermsOfLinear(m, atoms, a);
    TermsOfLinear(m, atoms, b);
    var ts := ExtractTerms(a) + ExtractTerms(b);
    CollectedPair(m, atoms, a, b);
    ArrangeExact(m, atoms, ts);
    ChainShape(m, atoms, Arrange(m, ts));
    assert IsChainOf(m, atoms, CollectAddPair(m, a, b), Arrange(m, ts));
    forall key: string ensures Coefficient(m, Add(a, b), key) == Coefficient(m, CollectAddPair(m, a, b), key) {
      assert CoefficientOf(m, Arrange(m, ts), key) == CoefficientOf(m, ts, key);
    }
  }

  /** Collecting a linear combination keeps the coefficient of every key. */
  lemma {:induction false} CollectLinear(m: Lib, atoms: set<Expr>, e: Expr)
    requires AllInert(m, atoms) && Linear(atoms, e)
    ensures IsCollected(m, atoms, CollectLikeTerms(m, e)) && SameCoefficients(m, e, CollectLikeTerms(m, e))
    ensures e.Add? || e.Sub? ==> IsCanonicalSum(m, atoms, CollectLikeTerms(m, e))
    ensures IsUnit(atoms, e) ==> CollectLikeTerms(m, e) == e
  {
    if e in atoms || IsMultiple(atoms, e) {
    } else {
      match e
      case Num(_) =>
      case Add(a, b) =>
        var a', b' := CollectLikeTerms(m, a), CollectLikeTerms(m, b);
        CollectLinear(m, atoms, a); CollectLinear(m, atoms, b);
        CollectedSum(m, atoms, a', b');
        SameSums(m, a, b, a', b');
      case Sub(a, b) =>
        var a', b' := CollectLikeTerms(m, a), CollectLikeTerms(m, b);
        CollectLinear(m, atoms, a); CollectLinear(m, atoms, b);
        CollectedSum(m, atoms, a', Neg(b'));
        SameSums(m, a, b, a', b');
        assert ExtractTerms(Sub(a', b')) == ExtractTerms(Add(a', Neg(b')));
      case Neg(a) =>
        var a' := CollectLikeTerms(m, a);
        CollectLinear(m, atoms, a);
        SameSums(m, a, a, a', a');
        NegationCollected(m, atoms, a');
    }
  }

  lemma NegationCollected(m: Lib, atoms: set<Expr>, inner: Expr)
    requires AllInert(m, atoms) && IsCollected(m, atoms, inner)
    ensures IsCollected(m, atoms, CollectNegation(m, inner))
    ensures SameCoefficients(m, Neg(inner), CollectNegation(m, inner))
  {
    if inner.Add? {
      CollectedSum(m, atoms, Neg(inner.left), Neg(inner.right));
      NegatedSums(m, inner.left, inner.right, Neg(inner.left), Neg(inner.right));
    } else if inner.Sub? {
      NegatedSums(m, inner.left, inner.right, inner.left, inner.right);
      assert Sub(CollectNegation(m, inner).right, CollectNegation(m, inner).left) == inner;
    } else {
      CollectedUnit(m, atoms, inner);
      NegatedUnitCollected(m, atoms, inner);
    }
  }

  lemma CollectedUnit(m: Lib, atoms: set<Expr>, e: Expr)
    requires AllInert(m, atoms) && IsCollected(m, atoms, e) && !e.Add? && !e.Sub?
    ensures IsSignedUnit(atoms, e)
  {
    if IsCanonicalSum(m, atoms, e) {
      var ts :| IsChainOf(m, atoms, e, ts);
      ChainShape(m, atoms, ts);
    }
  }

  lemma NegatedUnitCollected(m: Lib, atoms: set<Expr>, e: Expr)
    requires AllInert(m, atoms) && IsSignedUnit(atoms, e) && Linear(atoms, e)
    ensures IsCollected(m, atoms, CollectNegation(m, e)) && SameCoefficients(m, Neg(e), CollectNegation(m, e))
  {
    if e.Neg? {
      NegatedSums(m, e.arg, e.arg, e.arg, e.arg);
    } else if e.Num? {
      NegatedLiteral(m, e.n);
    } else {
      assert IsUnit(atoms, e) && CollectNegation(m, e) == Neg(e);
    }
  }

  // ----- what simplification leaves of it -----

  /** An atom, or a multiple of one by a literal other than 0 and 1. */
  predicate IsScaled(atoms: set<Expr>, e: Expr) {
    || e in atoms
    || (&& IsMultiple(atoms, e) && e.left != Num(0.0) && e.left != Num(1.0)
        && e.right != Num(0.0) && e.right != Num(1.0))
  }

  predicate IsSingle(atoms: set<Expr>, e: Expr) {
    e.Num? || IsScaled(atoms, e) || (e.Neg? && IsScaled(atoms, e.arg))
  }

  /** The forms that one more round leaves as they are. */
  ghost predicate IsSettled(m: Lib, atoms: set<Expr>, e: Expr) {
    IsSingle(atoms, e) || IsCanonicalSum(m, atoms, e)
  }

  lemma UnitSimplified(m: Lib, atoms: set<Expr>, e: Expr)
    requires AllInert(m, atoms) && IsUnit(atoms, e)
    ensures var r := Simplify(m, e);
            (r.Num? || IsScaled(atoms, r)) && Linear(atoms, r) && SameCoefficients(m, e, r) && FoldNumeric(m, r) == r
    ensures e.Num? || IsScaled(atoms, e) ==> Simplify(m, e) == e
  {
    if !e.Num? && e !in atoms {
      if e.left.Num? {
        MultipleSimplified(m, e, e.left.n, e.right);
      } else {
        MultipleSimplified(m, e, e.right.n, e.left);
      }
    }
  }

  /** A literal times an atom becomes 0, the atom, or stays. */
  lemma MultipleSimplified(m: Lib, e: Expr, c: real, a: Expr)
    requires Inert(m, a) && (e == Mul(Num(c), a) || e == Mul(a, Num(c)))
    ensures Simplify(m, e) == if c == 0.0 then Num(0.0) else if c == 1.0 then a else e
    ensures SameCoefficients(m, e, Simplify(m, e)) && FoldNumeric(m, Simplify(m, e)) == Simplify(m, e)
  {
    assert !a.Num? && Simplify(m, a) == a == FoldNumeric(m, a);
    LiteralsStay(m, c);
    ProductSimplified(m, e.left, e.right);
    if c == 0.0 {
      hide Simplify, FoldNumeric, SameCoefficients;
      ZeroMultiple(m, e, a);
    } else if c == 1.0 {
      hide Simplify, FoldNumeric;
      assert ExtractTerms(a) == [Term(1.0, a, false)] == ExtractTerms(e);
    } else {
      ScaledAtomStays(m, c, a);
    }
  }

  lemma ZeroMultiple(m: Lib, e: Expr, a: Expr)
    requires Inert(m, a) && (e == Mul(Num(0.0), a) || e == Mul(a, Num(0.0)))
    ensures SameCoefficients(m, e, Num(0.0))
  {
    assert ExtractTerms(e) == [Term(0.0, a, false)];
    forall key: string ensures Coefficient(m, e, key) == Coefficient(m, Num(0.0), key) {
      ZeroTerm(m, Num(0.0), key);
      assert CoefficientOf(m, ExtractTerms(e)[1..], key) == 0.0;
    }
  }

  lemma SignedUnitSimplified(m: Lib, atoms: set<Expr>, e: Expr)
    requires AllInert(m, atoms) && IsSignedUnit(atoms, e)
    ensures var r := Simplify(m, e); IsSingle(atoms, r) && Linear(atoms, r) && SameCoefficients(m, e, r)
    ensures IsSingle(atoms, e) ==> Simplify(m, e) == e
  {
    if IsUnit(atoms, e) {
      UnitSimplified(m, atoms, e);
    } else {
      NegatedUnitSimplified(m, atoms, e.arg);
    }
  }

  lemma NegatedUnitSimplified(m: Lib, atoms: set<Expr>, a: Expr)
    requires AllInert(m, atoms) && IsUnit(atoms, a) && !a.Num?
    ensures var r := Simplify(m, Neg(a)); IsSingle(atoms, r) && Linear(atoms, r) && SameCoefficients(m, Neg(a), r)
    ensures IsScaled(atoms, a) ==> Simplify(m, Neg(a)) == Neg(a)
  {
    var a' := Simplify(m, a);
    hide Simplify, FoldNumeric, SameCoefficients;
    UnitSimplified(m, atoms, a);
    UnitSimplified(m, atoms, a');
    NegationOfUnit(m, a, a');
    SameSums(m, a, a, a', a');
    if a'.Num? {
      NegatedLiteral(m, a'.n);
      SameTransitive(m, Neg(a), Neg(a'), Num(-a'.n));
    }
  }

  lemma SameTransitive(m: Lib, a: Expr, b: Expr, c: Expr)
    requires SameCoefficients(m, a, b) && SameCoefficients(m, b, c)
    ensures SameCoefficients(m, a, c)
  {
    forall key: string ensures Coefficient(m, a, key) == Coefficient(m, c, key) {
      assert Coefficient(m, a, key) == Coefficient(m, b, key) && Coefficient(m, b, key) == Coefficient(m, c, key);
    }
  }

  lemma NegationOfUnit(m: Lib, a: Expr, a': Expr)
    requires Simplify(m, a) == a' == Simplify(m, a') && !a'.Neg? && !a'.Add? && !a'.Sub?
    ensures Simplify(m, Neg(a)) == if a'.Num? then Num(-a'.n) else Neg(a')
  {
    NegationSimplified(m, a);
    JoinedFolds(m, a', a');
    assert NegRules(a') == if a'.Num? then Num(-a'.n) else Neg(a');
  }

  lemma SwappedSimplified(m: Lib, atoms: set<Expr>, e: Expr)
    requires AllInert(m, atoms) && IsSwapped(m, atoms, e)
    ensures Linear(atoms, Simplify(m, e)) && SameCoefficients(m, e, Simplify(m, e))
  {
    var ts :| IsChainOf(m, atoms, Sub(e.right, e.left), ts);
    ChainShape(m, atoms, ts);
    var k := |ts| - 1;
    assert ts == ts[..k] + [ts[k]] && e.right == Chain(ts[..k]) && e.left == Piece(ts[k]);
    SwappedChain(m, atoms, ts[..k], ts[k]);
  }

  lemma SwappedChain(m: Lib, atoms: set<Expr>, ts: seq<Term>, t: Term)
    requires AllInert(m, atoms) && Arranged(m, atoms, ts + [t]) && ts != []
    ensures var e := Sub(Piece(t), Chain(ts)); Linear(atoms, Simplify(m, e)) && SameCoefficients(m, e, Simplify(m, e))
  {
    var p, c := Piece(t), Chain(ts);
    assert (ts + [t])[..|ts|] == ts && (ts + [t])[|ts|] == t && t in ts + [t];
    ArrangedPrefix(m, atoms, ts + [t], |ts|);
    ChainShape(m, atoms, ts);
    ChainSimplified(m, atoms, ts);
    PieceIsAtomic(m, atoms, t);
    DifferenceOfPieces(m, atoms, ts, t);
    JoinedFolds(m, p, c);
    if c.Neg? {
      NegatedPiece(m, atoms, ts);
      JoinedFolds(m, p, c.arg);
      MinusNegation(m, p, c.arg);
    } else {
      SameSums(m, p, c, p, c);
    }
  }

  lemma MinusNegation(m: Lib, p: Expr, a: Expr)
    ensures SameCoefficients(m, Sub(p, Neg(a)), Add(p, a))
  {
    forall key: string ensures Coefficient(m, Sub(p, Neg(a)), key) == Coefficient(m, Add(p, a), key) {
      CoefficientSums(m, p, Neg(a), key); CoefficientSums(m, p, a, key); CoefficientSums(m, a, a, key);
    }
  }

  /** A piece minus a canonical sum of other terms is not simplified further than a - (-b) = a + b. */
  lemma DifferenceOfPieces(m: Lib, atoms: set<Expr>, ts: seq<Term>, t: Term)
    requires AllInert(m, atoms) && Arranged(m, atoms, ts + [t]) && ts != []
    ensures var c := Chain(ts); SubRules(Piece(t), c) == if c.Neg? then Add(Piece(t), c.arg) else Sub(Piece(t), c)
  {
    var us := ts + [t];
    assert us[|ts|] == t && t in us && us[0] == ts[0] && ts[0] in us;
    PieceIsAtomic(m, atoms, t);
    if |ts| == 1 {
      assert Precedes(m, us[0], us[1]);
      PieceIsAtomic(m, atoms, ts[0]);
      PiecesDiffer(m, atoms, ts[0], t);
      hide Arranged, AllInert, Precedes, Piece;
    } else {
      hide Arranged, AllInert, Piece;
    }
  }

  lemma NegatedPiece(m: Lib, atoms: set<Expr>, ts: seq<Term>)
    requires AllInert(m, atoms) && Arranged(m, atoms, ts) && Chain(ts).Neg?
    ensures Simplify(m, Chain(ts).arg) == Chain(ts).arg && Linear(atoms, Chain(ts).arg)
  {
    ChainShape(m, atoms, ts);
    var t := ts[0];
    assert ts == [t] && t in ts;
    ChainUnfolds([], t);
    PieceIsAtomic(m, atoms, t);
  }

  lemma CollectedSimplified(m: Lib, atoms: set<Expr>, e: Expr)
    requires AllInert(m, atoms) && IsCollected(m, atoms, e)
    ensures Linear(atoms, Simplify(m, e)) && SameCoefficients(m, e, Simplify(m, e))
    ensures IsSignedUnit(atoms, e) || IsCanonicalSum(m, atoms, e) ==> IsSettled(m, atoms, Simplify(m, e))
  {
    if IsCanonicalSum(m, atoms, e) {
      var ts :| IsChainOf(m, atoms, e, ts);
      ChainSimplified(m, atoms, ts);
    } else if IsSignedUnit(atoms, e) {
      SignedUnitSimplified(m, atoms, e);
    } else {
      SwappedSimplified(m, atoms, e);
    }
  }

  // ----- one round -----

  /** Collection of what is expanded to a linear combination, and the second half of a round. */
  lemma RoundAfterExpansion(m: Lib, atoms: set<Expr>, e: Expr, l: Expr)
    requires AllInert(m, atoms) && Linear(atoms, l) && Expand(m, Identities(m, e)) == l
    ensures IsSettled(m, atoms, Round(m, e)) && Linear(atoms, Round(m, e)) && SameCoefficients(m, l, Round(m, e))
  {
    var e2 := CollectLikeTerms(m, l);
    CollectLinear(m, atoms, l);
    var e3 := Simplify(m, e2);
    CollectedSimplified(m, atoms, e2);
    SameTransitive(m, l, e2, e3);
    RoundAfterCollection(m, atoms, e, e3);
    SameTransitive(m, l, e3, Round(m, e));
  }

  /** The second half of a round, on a linear combination. */
  lemma RoundAfterCollection(m: Lib, atoms: set<Expr>, e: Expr, e3: Expr)
    requires AllInert(m, atoms) && Linear(atoms, e3)
    requires Simplify(m, CollectLikeTerms(m, Expand(m, Identities(m, e)))) == e3
    ensures IsSettled(m, atoms, Round(m, e)) && Linear(atoms, Round(m, e)) && SameCoefficients(m, e3, Round(m, e))
  {
    var e4 := NegDistribute(e3);
    NegDistributeLinear(m, atoms, e3);
    NegationsMovedInwards(e3);
    PassesWithoutEffect(m, atoms, e4);
    var e5 := CollectLikeTerms(m, e4);
    CollectLinear(m, atoms, e4);
    InnermostCollected(m, atoms, e4);
    CollectedSimplified(m, atoms, e5);
    assert Round(m, e) == Simplify(m, e5);
    SameTransitive(m, e3, e4, e5);
    SameTransitive(m, e3, e5, Simplify(m, e5));
  }

  /** One round keeps a linear combination linear, keeps its coefficients and settles it. */
  lemma RoundLinear(m: Lib, atoms: set<Expr>, e: Expr)
    requires AllInert(m, atoms) && Linear(atoms, e)
    ensures IsSettled(m, atoms, Round(m, e)) && Linear(atoms, Round(m, e)) && SameCoefficients(m, e, Round(m, e))
  {
    var e1 := ApplyPythagoras(m, e);
    PythagorasLinear(m, atoms, e);
    PassesWithoutEffect(m, atoms, e1);
    RoundAfterExpansion(m, atoms, e, e1);
    assert SameCoefficients(m, e, e1);
    SameTransitive(m, e, e1, Round(m, e));
  }

  lemma InnermostCollected(m: Lib, atoms: set<Expr>, e: Expr)
    requires AllInert(m, atoms) && Linear(atoms, e) && NegationIsInnermost(e)
    ensures IsSignedUnit(atoms, CollectLikeTerms(m, e)) || IsCanonicalSum(m, atoms, CollectLikeTerms(m, e))
  {
    CollectLinear(m, atoms, e);
    if e.Neg? { CollectLinear(m, atoms, e.arg); }
  }

  // ----- settled forms stay -----

  lemma {:induction false} PositiveChainRebuilt(m: Lib, atoms: set<Expr>, ts: seq<Term>)
    requires AllInert(m, atoms) && Arranged(m, atoms, ts) && ts != [] && forall t | t in ts :: t.coeff > 0.0
    ensures RebuildSum(FlattenSum(Chain(ts))) == Chain(ts)
  {
    var k := |ts| - 1;
    assert ts[k] in ts;
    PieceIsAtomic(m, atoms, ts[k]);
    if k > 0 {
      ArrangedPrefix(m, atoms, ts, k);
      PositiveChainRebuilt(m, atoms, ts[..k]);
      var init := FlattenSum(Chain(ts[..k]));
      assert FlattenSum(Chain(ts)) == init + [Piece(ts[k])];
      assert (init + [Piece(ts[k])])[..|init|] == init;
    }
  }

  lemma {:induction false} PythagorasKeepsChain(m: Lib, atoms: set<Expr>, ts: seq<Term>)
    requires AllInert(m, atoms) && Arranged(m, atoms, ts)
    ensures ApplyPythagoras(m, Chain(ts)) == Chain(ts)
  {
    if ts != [] {
      var k := |ts| - 1;
      assert ts[k] in ts;
      PieceIsAtomic(m, atoms, ts[k]);
      PieceKept(m, atoms, Piece(ts[k]));
      if k > 0 && ts[k].coeff > 0.0 {
        forall t | t in ts ensures t.coeff > 0.0 {
          var i :| 0 <= i < |ts| && ts[i] == t;
          if i < k { assert Precedes(m, ts[i], ts[k]); }
        }
        PositiveChainRebuilt(m, atoms, ts);
        ChainShape(m, atoms, ts);
        FlattenLinear(m, atoms, Chain(ts));
        ScanFindsNothing(m, FlattenSum(Chain(ts)), 0);
      } else if k > 0 {
        ArrangedPrefix(m, atoms, ts, k);
        PythagorasKeepsChain(m, atoms, ts[..k]);
      }
    }
  }

  lemma PieceKept(m: Lib, atoms: set<Expr>, p: Expr)
    requires AllInert(m, atoms) && IsUnit(atoms, p)
    ensures ApplyPythagoras(m, p) == p && NegDistribute(p) == p && CollectLikeTerms(m, p) == p
    ensures ApplyPythagoras(m, Neg(p)) == Neg(p)
    ensures !p.Num? ==> NegDistribute(Neg(p)) == Neg(p) && CollectLikeTerms(m, Neg(p)) == Neg(p)
  {
  }

  lemma {:induction false} NegDistributeKeepsChain(m: Lib, atoms: set<Expr>, ts: seq<Term>)
    requires AllInert(m, atoms) && Arranged(m, atoms, ts)
    ensures NegDistribute(Chain(ts)) == Chain(ts)
  {
    if ts != [] {
      var k := |ts| - 1;
      assert ts[k] in ts;
      PieceIsAtomic(m, atoms, ts[k]);
      PieceKept(m, atoms, Piece(ts[k]));
      ArrangedPrefix(m, atoms, ts, k);
      NegDistributeKeepsChain(m, atoms, ts[..k]);
    }
  }

  lemma {:induction false} CollectKeepsChain(m: Lib, atoms: set<Expr>, ts: seq<Term>)
    requires AllInert(m, atoms) && Arranged(m, atoms, ts)
    ensures CollectLikeTerms(m, Chain(ts)) == Chain(ts)
  {
    if ts != [] {
      var k := |ts| - 1;
      assert ts == ts[..k] + [ts[k]];
      if k > 0 {
        ArrangedPrefix(m, atoms, ts, k);
        CollectKeepsChain(m, atoms, ts[..k]);
        CollectKeepsLast(m, atoms, ts[..k], ts[k]);
      } else {
        assert ts[0] in ts && ts == [ts[0]];
        PieceIsAtomic(m, atoms, ts[0]);
        PieceKept(m, atoms, Piece(ts[0]));
        ChainUnfolds([], ts[0]);
      }
    }
  }

  lemma CollectKeepsLast(m: Lib, atoms: set<Expr>, ts: seq<Term>, t: Term)
    requires AllInert(m, atoms) && Arranged(m, atoms, ts + [t]) && ts != []
    requires CollectLikeTerms(m, Chain(ts)) == Chain(ts)
    ensures CollectLikeTerms(m, Chain(ts + [t])) == Chain(ts + [t])
  {
    var us := ts + [t];
    assert us[..|ts|] == ts && us[|ts|] == t && t in us;
    ArrangedPrefix(m, atoms, us, |ts|);
    PieceIsAtomic(m, atoms, t);
    ChainTerms(m, atoms, ts);
    ChainOfOne(m, atoms, t);
    ChainUnfolds(ts, t);
    var last := if t.coeff > 0.0 then Piece(t) else Neg(Piece(t));
    assert ExtractTerms(last) == [t];
    CollectedPair(m, atoms, Chain(ts), last);
    ArrangeFixed(m, atoms, us);
    assert CollectLikeTerms(m, Chain(us)) == CollectAddPair(m, Chain(ts), last);
  }

  lemma SettledStays(m: Lib, atoms: set<Expr>, e: Expr)
    requires AllInert(m, atoms) && IsSettled(m, atoms, e)
    ensures Round(m, e) == e
  {
    if IsSingle(atoms, e) {
      PassesWithoutEffect(m, atoms, e);
      PieceKept(m, atoms, if e.Neg? then e.arg else e);
      SignedUnitSimplified(m, atoms, e);
    } else {
      var ts :| IsChainOf(m, atoms, e, ts);
      ChainShape(m, atoms, ts);
      PassesWithoutEffect(m, atoms, e);
      PythagorasKeepsChain(m, atoms, ts);
      CollectKeepsChain(m, atoms, ts);
      ChainSimplified(m, atoms, ts);
      NegDistributeKeepsChain(m, atoms, ts);
    }
  }

  // ----- the decision -----

  /** The loop stops on every linear combination, after one round that changes something. */
  lemma LinearCanonicalizes(m: Lib, atoms: set<Expr>, e: Expr)
    requires AllInert(m, atoms) && Linear(atoms, e)
    ensures CanonicalizesTo(m, e, Round(m, e))
  {
    RoundLinear(m, atoms, e);
    SettledStays(m, atoms, Round(m, e));
    RoundOfIsRound(m, e);
    RoundOfIsRound(m, Round(m, e));
    assert Iterate(RoundOf(m), e, 1) == Iterate(RoundOf(m), RoundOf(m)(e), 0) == Round(m, e);
  }

  lemma {:induction false} AbsentKey(m: Lib, ts: seq<Term>, key: string)
    requires forall t | t in ts :: KeyOf(m, t) != key
    ensures CoefficientOf(m, ts, key) == 0.0
  {
    if ts != [] {
      assert ts[0] in ts;
      AbsentKey(m, ts[1..], key);
    }
  }

  /** Only 0 settles with all coefficients 0. */
  lemma SettledZero(m: Lib, atoms: set<Expr>, e: Expr)
    requires AllInert(m, atoms) && IsSettled(m, atoms, e)
    ensures e == Num(0.0) <==> forall key: string :: Coefficient(m, e, key) == 0.0
  {
    if e == Num(0.0) {
      forall key: string ensures Coefficient(m, e, key) == 0.0 { ZeroTerm(m, e, key); }
    } else {
      var ts := ExtractTerms(e);
      if IsSingle(atoms, e) {
        SingleTerm(m, atoms, e);
      } else {
        ts :| IsChainOf(m, atoms, e, ts);
        ChainTerms(m, atoms, ts);
      }
      forall t | t in ts[1..] ensures KeyOf(m, t) != KeyOf(m, ts[0]) {
        var i :| 0 <= i < |ts[1..]| && ts[1..][i] == t;
        assert Precedes(m, ts[0], ts[i + 1]);
      }
      AbsentKey(m, ts[1..], KeyOf(m, ts[0]));
      assert ts[0] in ts;
      assert Coefficient(m, e, KeyOf(m, ts[0])) == ts[0].coeff != 0.0;
    }
  }

  lemma SingleTerm(m: Lib, atoms: set<Expr>, e: Expr)
    requires AllInert(m, atoms) && IsSingle(atoms, e) && e != Num(0.0)
    ensures |ExtractTerms(e)| == 1 && ExtractTerms(e)[0].coeff != 0.0
  {
  }

  /**
    `equivalent` decides linear combinations of inert terms: it is true exactly when every
    key has the same summed coefficient on both sides.
    */
  lemma EquivalentExact(m: Lib, atoms: set<Expr>, a: Expr, b: Expr)
    requires AllInert(m, atoms) && Linear(atoms, a) && Linear(atoms, b)
    ensures Equivalent(m, a, b) <==> SameCoefficients(m, a, b)
  {
    RoundLinear(m, atoms, a);
    RoundLinear(m, atoms, b);
    LinearCanonicalizes(m, atoms, a);
    LinearCanonicalizes(m, atoms, b);
    if a != b { CanonicalFormsDecide(m, atoms, a, b, Round(m, a), Round(m, b), a, b); }
  }

  /** Whatever canonicalizes to linear combinations is decided by the coefficients of those. */
  lemma CanonicalFormsDecide(m: Lib, atoms: set<Expr>, a: Expr, b: Expr, ca: Expr, cb: Expr, la: Expr, lb: Expr)
    requires AllInert(m, atoms) && a != b && CanonicalizesTo(m, a, ca) && CanonicalizesTo(m, b, cb)
    requires Linear(atoms, ca) && SameCoefficients(m, la, ca) && Linear(atoms, cb) && SameCoefficients(m, lb, cb)
    ensures Equivalent(m, a, b) <==> SameCoefficients(m, la, lb)
  {
    var diff := Sub(ca, cb);
    RoundLinear(m, atoms, diff);
    LinearCanonicalizes(m, atoms, diff);
    SettledZero(m, atoms, Round(m, diff));
    DifferenceCoefficients(m, la, lb, ca, cb, Round(m, diff));
    if ca == cb {
      assert EquivalentVia(m, a, b, ca, cb);
    } else {
      DifferenceDecides(m, a, b, ca, cb, Round(m, diff));
    }
  }

  lemma DifferenceCoefficients(m: Lib, a: Expr, b: Expr, ca: Expr, cb: Expr, d: Expr)
    requires SameCoefficients(m, a, ca) && SameCoefficients(m, b, cb) && SameCoefficients(m, Sub(ca, cb), d)
    ensures SameCoefficients(m, a, b) <==> forall key: string :: Coefficient(m, d, key) == 0.0
    ensures ca == cb ==> SameCoefficients(m, a, b)
  {
    forall key: string ensures Coefficient(m, d, key) == Coefficient(m, a, key) - Coefficient(m, b, key) {
      DifferenceAt(m, a, b, ca, cb, d, key);
    }
    if ca == cb {
      forall key: string ensures Coefficient(m, a, key) == Coefficient(m, b, key) {
        assert Coefficient(m, a, key) == Coefficient(m, ca, key) && Coefficient(m, b, key) == Coefficient(m, cb, key);
      }
    }
  }

  lemma DifferenceAt(m: Lib, a: Expr, b: Expr, ca: Expr, cb: Expr, d: Expr, key: string)
    requires SameCoefficients(m, a, ca) && SameCoefficients(m, b, cb) && SameCoefficients(m, Sub(ca, cb), d)
    ensures Coefficient(m, d, key) == Coefficient(m, a, key) - Coefficient(m, b, key)
  {
    assert Coefficient(m, Sub(ca, cb), key) == Coefficient(m, d, key);
    assert Coefficient(m, a, key) == Coefficient(m, ca, key) && Coefficient(m, b, key) == Coefficient(m, cb, key);
    CoefficientSums(m, ca, cb, key);
  }

  /** Two inert terms are reported equivalent exactly when they have the same key. */
  lemma InertEquivalentExact(m: Lib, a: Expr, b: Expr)
    requires Inert(m, a) && Inert(m, b)
    ensures Equivalent(m, a, b) <==> m.show(a) == m.show(b)
  {
    var atoms := {a, b};
    var s, t := Term(1.0, a, false), Term(1.0, b, false);
    EquivalentExact(m, atoms, a, b);
    TermsOfLinear(m, atoms, a);
    TermsOfLinear(m, atoms, b);
    assert [s][1..] == [] && [t][1..] == [];
    forall key: string
      ensures Coefficient(m, a, key) == if m.show(a) == key then 1.0 else 0.0
      ensures Coefficient(m, b, key) == if m.show(b) == key then 1.0 else 0.0
    {
      assert CoefficientOf(m, [s][1..], key) == 0.0 == CoefficientOf(m, [t][1..], key);
    }
    if m.show(a) != m.show(b) {
      assert Coefficient(m, a, m.show(a)) != Coefficient(m, b, m.show(a));
    }
  }

  // ----- atoms divided by literals -----

  /** An atom divided by a literal other than 0. */
  predicate IsQuotient(atoms: set<Expr>, e: Expr) {
    e.Div? && e.left in atoms && e.right.Num? && e.right.n != 0.0
  }

  predicate IsLinearOrQuotient(atoms: set<Expr>, e: Expr) {
    Linear(atoms, e) || IsQuotient(atoms, e)
  }

  /** The linear combination with the value of e: a / k is (1 / k) * a. */
  function AsLinear(atoms: set<Expr>, e: Expr): Expr {
    if IsQuotient(atoms, e) then Mul(Num(1.0 / e.right.n), e.left) else e
  }

  /** The passes before simplification leave such a quotient alone. */
  lemma QuotientUntouched(m: Lib, a: Expr, k: real)
    requires Inert(m, a)
    ensures var q := Div(a, Num(k));
            ApplyPythagoras(m, q) == q && CancelExpLog(q) == q && Expand(m, q) == q && CollectLikeTerms(m, q) == q
  {
    var n := Num(k);
    assert ApplyPythagoras(m, n) == n && CancelExpLog(n) == n && CollectLikeTerms(m, n) == n;
  }

  /** Only the treatment of divisors changes it. */
  lemma QuotientPasses(m: Lib, a: Expr, k: real)
    requires Inert(m, a) && k != 0.0 && k != 1.0
    ensures var q := Div(a, Num(k));
            && ApplyPythagoras(m, q) == q && CancelExpLog(q) == q && Expand(m, q) == q
            && CollectLikeTerms(m, q) == q && Simplify(m, q) == q == FoldNumeric(m, q)
            && NegDistribute(q) == q && CanonicalizeDiv(q) == Mul(Num(1.0 / k), a)
  {
    var q := Div(a, Num(k));
    QuotientUntouched(m, a, k);
    assert Simplify(m, Num(k)) == Num(k) && Simplify(m, a) == a;
    assert DivRules(a, Num(k)) == q;
    assert FoldNumeric(m, q) == q;
  }

  /** A round that simplifies to s, treats the divisors of s, and finds nothing else to do. */
  lemma RoundThrough(m: Lib, e: Expr, s: Expr, r: Expr)
    requires ApplyPythagoras(m, e) == e && CancelExpLog(e) == e && Expand(m, e) == e
    requires Simplify(m, CollectLikeTerms(m, e)) == s && NegDistribute(s) == s && CanonicalizeDiv(s) == r
    ensures Round(m, e) == Simplify(m, CollectLikeTerms(m, r))
  {
  }

  lemma QuotientRound(m: Lib, a: Expr, k: real)
    requires Inert(m, a) && k != 0.0
    ensures var r := Round(m, Div(a, Num(k)));
            && r == (if k == 1.0 then a else Mul(Num(1.0 / k), a)) && SameCoefficients(m, Mul(Num(1.0 / k), a), r)
  {
    if k == 1.0 {
      QuotientByOne(m, a);
      assert ExtractTerms(Mul(Num(1.0), a)) == [Term(1.0, a, false)] == ExtractTerms(a);
    } else {
      QuotientByOther(m, a, k);
    }
  }

  lemma QuotientByOther(m: Lib, a: Expr, k: real)
    requires Inert(m, a) && k != 0.0 && k != 1.0
    ensures Round(m, Div(a, Num(k))) == Mul(Num(1.0 / k), a)
  {
    var q, r := Div(a, Num(k)), Mul(Num(1.0 / k), a);
    assert CollectLikeTerms(m, r) == r;
    hide Round, Simplify, CollectLikeTerms, SameCoefficients, Inert;
    QuotientPasses(m, a, k);
    RoundThrough(m, q, q, r);
    InverseNotOne(k);
    ScaledAtomStays(m, 1.0 / k, a);
  }

  lemma InverseNotOne(k: real)
    requires k != 0.0 && k != 1.0
    ensures 1.0 / k != 0.0 && 1.0 / k != 1.0
  {
  }

  lemma QuotientByOne(m: Lib, a: Expr)
    requires Inert(m, a)
    ensures Round(m, Div(a, Num(1.0))) == a
  {
    var q := Div(a, Num(1.0));
    QuotientUntouched(m, a, 1.0);
    assert Simplify(m, Num(1.0)) == Num(1.0) && DivRules(a, Num(1.0)) == a;
    assert Simplify(m, q) == FoldNumeric(m, a) == a;
    RoundThrough(m, q, a, a);
  }

  lemma QuotientCanonicalizes(m: Lib, atoms: set<Expr>, e: Expr)
    requires AllInert(m, atoms) && IsLinearOrQuotient(atoms, e)
    ensures CanonicalizesTo(m, e, Round(m, e)) && Linear(atoms, Round(m, e))
    ensures SameCoefficients(m, AsLinear(atoms, e), Round(m, e))
  {
    if IsQuotient(atoms, e) {
      var r := Round(m, e);
      QuotientRound(m, e.left, e.right.n);
      if e.right.n != 1.0 { InverseNotOne(e.right.n); }
      assert IsSingle(atoms, r);
      SettledStays(m, atoms, r);
      ReachedByOneRound(m, e);
    } else {
      RoundLinear(m, atoms, e);
      LinearCanonicalizes(m, atoms, e);
    }
  }

  lemma ReachedByOneRound(m: Lib, e: Expr)
    requires Round(m, Round(m, e)) == Round(m, e)
    ensures CanonicalizesTo(m, e, Round(m, e))
  {
    RoundOfIsRound(m, e);
    RoundOfIsRound(m, Round(m, e));
    assert Iterate(RoundOf(m), e, 1) == Iterate(RoundOf(m), RoundOf(m)(e), 0) == Round(m, e);
  }

  /** Atoms divided by literals are decided together with linear combinations. */
  lemma QuotientEquivalentExact(m: Lib, atoms: set<Expr>, a: Expr, b: Expr)
    requires AllInert(m, atoms) && IsLinearOrQuotient(atoms, a) && IsLinearOrQuotient(atoms, b)
    ensures Equivalent(m, a, b) <==> SameCoefficients(m, AsLinear(atoms, a), AsLinear(atoms, b))
  {
    QuotientCanonicalizes(m, atoms, a);
    QuotientCanonicalizes(m, atoms, b);
    if a != b {
      CanonicalFormsDecide(m, atoms, a, b, Round(m, a), Round(m, b), AsLinear(atoms, a), AsLinear(atoms, b));
    }
  }

  // ----- where quotients by literals collide -----

  /**
    Inside a sum they are grouped before the divisors are treated. So a / p - a / q is
    reported to be 0 exactly when the two quotients have the same key, whatever p and q are.
    */
  lemma QuotientDifferenceExact(m: Lib, a: Expr, p: real, q: real)
    requires Inert(m, a) && p != 0.0 && p != 1.0 && q != 0.0 && q != 1.0
    ensures Equivalent(m, Sub(Div(a, Num(p)), Div(a, Num(q))), Num(0.0)) <==>
            m.show(Div(a, Num(p))) == m.show(Div(a, Num(q)))
  {
    var s, t := Div(a, Num(p)), Div(a, Num(q));
    QuotientPasses(m, a, p);
    QuotientPasses(m, a, q);
    LinearCanonicalizes(m, {a}, Num(0.0));
    ZeroStays(m);
    if m.show(s) == m.show(t) {
      MergedToZero(m, s, t);
      assert Round(m, Sub(s, t)) == Num(0.0);
      ReachedByOneRound(m, Sub(s, t));
      assert EquivalentVia(m, Sub(s, t), Num(0.0), Num(0.0), Num(0.0));
    } else {
      SeparateRound(m, a, p, q);
      ReachedByOneRound(m, Sub(s, t));
      var l := Sub(Mul(Num(1.0 / p), a), Mul(Num(1.0 / q), a));
      CanonicalFormsDecide(m, {a}, Sub(s, t), Num(0.0), Round(m, Sub(s, t)), Num(0.0), l, Num(0.0));
      InversesDiffer(m, a, p, q);
    }
  }

  lemma ZeroStays(m: Lib)
    ensures Simplify(m, Num(0.0)) == Num(0.0) && Round(m, Num(0.0)) == Num(0.0)
  {
    assert CollectLikeTerms(m, Num(0.0)) == Num(0.0) && Simplify(m, Num(0.0)) == Num(0.0);
  }

  lemma MergedToZero(m: Lib, s: Expr, t: Expr)
    requires s.Div? && t.Div? && m.show(s) == m.show(t)
    ensures CollectAddPair(m, s, Neg(t)) == Num(0.0)
  {
    var u, v := Term(1.0, s, false), Term(-1.0, t, false);
    assert ExtractTerms(t) == [Term(1.0, t, false)];
    assert ExtractTerms(s) == [u] && ExtractTerms(Neg(t)) == [v];
    assert [u] + [v] == [u, v] && [u, v][1..] == [v] && [v][1..] == [];
    var g := Group(m.show(s), 1.0, u);
    assert AddToGroups(m, [], u) == [g] && AddToGroups(m, [g], v) == [g.(coeff := 0.0)];
    assert GroupTerms(m, [], [u, v]) == GroupTerms(m, [g], [v]) == GroupTerms(m, [g.(coeff := 0.0)], []);
    assert SortGroups([g.(coeff := 0.0)]) == [];
  }

  /** With different keys the two quotients stay apart until their divisors are treated. */
  lemma SeparateRound(m: Lib, a: Expr, p: real, q: real)
    requires Inert(m, a) && p != 0.0 && p != 1.0 && q != 0.0 && q != 1.0
    requires m.show(Div(a, Num(p))) != m.show(Div(a, Num(q)))
    ensures var r, l := Round(m, Sub(Div(a, Num(p)), Div(a, Num(q)))), Sub(Mul(Num(1.0 / p), a), Mul(Num(1.0 / q), a));
            Linear({a}, r) && SameCoefficients(m, l, r) && Round(m, r) == r
  {
    var s, t := Div(a, Num(p)), Div(a, Num(q));
    var l := Sub(Mul(Num(1.0 / p), a), Mul(Num(1.0 / q), a));
    DifferenceTreated(m, a, p, q);
    assert AllInert(m, {a}) && Linear({a}, l);
    hide Round, Simplify, CollectLikeTerms, Inert, Linear;
    CollectLinear(m, {a}, l);
    CollectedSimplified(m, {a}, CollectLikeTerms(m, l));
    SettledStays(m, {a}, Simplify(m, CollectLikeTerms(m, l)));
    SameTransitive(m, l, CollectLikeTerms(m, l), Simplify(m, CollectLikeTerms(m, l)));
  }

  lemma DifferenceTreated(m: Lib, a: Expr, p: real, q: real)
    requires Inert(m, a) && p != 0.0 && p != 1.0 && q != 0.0 && q != 1.0
    requires m.show(Div(a, Num(p))) != m.show(Div(a, Num(q)))
    ensures Round(m, Sub(Div(a, Num(p)), Div(a, Num(q)))) ==
            Simplify(m, CollectLikeTerms(m, Sub(Mul(Num(1.0 / p), a), Mul(Num(1.0 / q), a))))
  {
    var s, t := Div(a, Num(p)), Div(a, Num(q));
    QuotientPasses(m, a, p);
    QuotientPasses(m, a, q);
    KeptApart(m, s, t);
    RoundThrough(m, Sub(s, t), Sub(s, t), Sub(Mul(Num(1.0 / p), a), Mul(Num(1.0 / q), a)));
  }

  lemma KeptApart(m: Lib, s: Expr, t: Expr)
    requires s.Div? && t.Div? && m.show(s) != m.show(t)
    requires Simplify(m, s) == s == FoldNumeric(m, s) && Simplify(m, t) == t
    ensures CollectAddPair(m, s, Neg(t)) == Sub(s, t) == Simplify(m, Sub(s, t))
  {
    GroupedPair(m, s, t);
    RebuiltApart(m, Group(m.show(s), 1.0, Term(1.0, s, false)), Group(m.show(t), -1.0, Term(-1.0, t, false)));
    DifferenceStays(m, s, t);
  }

  lemma GroupedPair(m: Lib, s: Expr, t: Expr)
    requires s.Div? && t.Div? && m.show(s) != m.show(t)
    ensures GroupTerms(m, [], ExtractTerms(s) + ExtractTerms(Neg(t))) ==
            [Group(m.show(s), 1.0, Term(1.0, s, false)), Group(m.show(t), -1.0, Term(-1.0, t, false))]
  {
    var u, v := Term(1.0, s, false), Term(-1.0, t, false);
    assert ExtractTerms(t) == [Term(1.0, t, false)];
    assert ExtractTerms(s) == [u] && ExtractTerms(Neg(t)) == [v];
    assert [u] + [v] == [u, v] && [u, v][1..] == [v] && [v][1..] == [];
    var g, h := Group(m.show(s), 1.0, u), Group(m.show(t), -1.0, v);
    assert AddToGroups(m, [], u) == [g] && AddToGroups(m, [g], v) == [g, h];
    assert GroupTerms(m, [], [u, v]) == GroupTerms(m, [g], [v]) == GroupTerms(m, [g, h], []);
  }

  lemma DifferenceStays(m: Lib, s: Expr, t: Expr)
    requires s.Div? && t.Div? && s != t
    requires Simplify(m, s) == s == FoldNumeric(m, s) && Simplify(m, t) == t
    ensures Simplify(m, Sub(Add(Num(0.0), s), t)) == Sub(s, t) == Simplify(m, Sub(s, t))
  {
    assert Simplify(m, Num(0.0)) == Num(0.0);
    hide Simplify, FoldNumeric;
    JoinedFolds(m, s, t);
    assert SubRules(s, t) == Sub(s, t) && AddRules(Num(0.0), s) == s;
    SumsSimplified(m, Num(0.0), s);
    SumsSimplified(m, Add(Num(0.0), s), t);
  }

  /** Two groups with coefficients 1 and -1 are rebuilt in that order, however they are sorted. */
  lemma RebuiltApart(m: Lib, g: Group, h: Group)
    requires g.coeff == 1.0 && h.coeff == -1.0
    ensures var gs := SortGroups([g, h]);
            && gs != []
            && SubtractNegatives(AddPositives(Num(0.0), gs), gs) ==
               Sub(Add(Num(0.0), g.first.factor), h.first.factor)
  {
    assert [g, h][1..] == [h] && [h][1..] == [];
    assert SortGroups([]) == [];
    assert SortGroups([h]) == InsertGroup(h, []) == [h];
    assert SortGroups([g, h]) == InsertGroup(g, [h]);
    assert InsertGroup(g, [h][1..]) == [g];
    assert SortGroups([g, h]) == [g, h] || SortGroups([g, h]) == [h, g];
    assert [h, g][1..] == [g] && [g][1..] == [];
    RebuiltPair(g, h);
  }

  lemma RebuiltPair(g: Group, h: Group)
    requires g.coeff == 1.0 && h.coeff == -1.0
    ensures forall gs | gs == [g, h] || gs == [h, g] ::
              SubtractNegatives(AddPositives(Num(0.0), gs), gs) ==
              Sub(Add(Num(0.0), g.first.factor), h.first.factor)
  {
    var sum := Add(Num(0.0), g.first.factor);
    assert [g, h][1..] == [h] && [h, g][1..] == [g] && [g][1..] == [] && [h][1..] == [];
    assert AddPositives(Num(0.0), [g, h]) == AddPositives(sum, [h]) == AddPositives(sum, []) == sum;
    assert AddPositives(Num(0.0), [h, g]) == AddPositives(Num(0.0), [g]) == AddPositives(sum, []) == sum;
    var all := Sub(sum, h.first.factor);
    assert SubtractNegatives(sum, [g, h]) == SubtractNegatives(sum, [h]) == SubtractNegatives(all, []) == all;
    assert SubtractNegatives(sum, [h, g]) == SubtractNegatives(all, [g]) == SubtractNegatives(all, []) == all;
  }

  lemma MultipleCoefficient(m: Lib, c: real, a: Expr)
    ensures Coefficient(m, Mul(Num(c), a), m.show(a)) == c
  {
    var t := Term(c, a, false);
    assert ExtractTerms(Mul(Num(c), a)) == [t] && [t][1..] == [];
    assert CoefficientOf(m, [t][1..], m.show(a)) == 0.0;
  }

  lemma InversesDiffer(m: Lib, a: Expr, p: real, q: real)
    requires Inert(m, a) && p != 0.0 && q != 0.0 && m.show(Div(a, Num(p))) != m.show(Div(a, Num(q)))
    ensures !SameCoefficients(m, Sub(Mul(Num(1.0 / p), a), Mul(Num(1.0 / q), a)), Num(0.0))
  {
    var key, x, y := m.show(a), Mul(Num(1.0 / p), a), Mul(Num(1.0 / q), a);
    MultipleCoefficient(m, 1.0 / p, a);
    MultipleCoefficient(m, 1.0 / q, a);
    CoefficientSums(m, x, y, key);
    ZeroTerm(m, Num(0.0), key);
    assert 1.0 / p == 1.0 / q ==> p == q;
    assert Coefficient(m, Sub(x, y), key) != Coefficient(m, Num(0.0), key);
  }

  // ----- the keys of a run on linear combinations -----

  /** Atoms with one key are related, and constants are related to themselves. */
  ghost predicate AtomsKeyed(m: Lib, rel: Relation, atoms: set<Expr>) {
    rel(Num(1.0), Num(1.0)) && forall a, b | a in atoms && b in atoms && m.show(a) == m.show(b) :: rel(a, b)
  }

  lemma LinearPairKeyed(m: Lib, rel: Relation, atoms: set<Expr>, a: Expr, b: Expr)
    requires AllInert(m, atoms) && AtomsKeyed(m, rel, atoms) && Linear(atoms, a) && Linear(atoms, b)
    ensures PairKeyed(m, rel, a, b)
  {
    TermsOfLinear(m, atoms, a);
    TermsOfLinear(m, atoms, b);
    var ts := ExtractTerms(a) + ExtractTerms(b);
    forall s, t | s in ts && t in ts ensures SameKeyRelated(m, rel, s, t) {
      assert IsTermOver(atoms, s) && IsTermOver(atoms, t);
      assert !s.isConst ==> Inert(m, s.factor);
      assert !t.isConst ==> Inert(m, t.factor);
    }
  }

  lemma {:induction false} LinearCollectKeyed(m: Lib, rel: Relation, atoms: set<Expr>, e: Expr)
    requires AllInert(m, atoms) && AtomsKeyed(m, rel, atoms) && Linear(atoms, e)
    requires forall a | a in atoms :: CollectKeyed(m, rel, a)
    ensures CollectKeyed(m, rel, e)
  {
    if e in atoms || IsMultiple(atoms, e) {
    } else {
      match e
      case Add(a, b) =>
        LinearCollectKeyed(m, rel, atoms, a); LinearCollectKeyed(m, rel, atoms, b);
        CollectLinear(m, atoms, a); CollectLinear(m, atoms, b);
        LinearPairKeyed(m, rel, atoms, CollectLikeTerms(m, a), CollectLikeTerms(m, b));
      case Sub(a, b) =>
        LinearCollectKeyed(m, rel, atoms, a); LinearCollectKeyed(m, rel, atoms, b);
        CollectLinear(m, atoms, a); CollectLinear(m, atoms, b);
        LinearPairKeyed(m, rel, atoms, CollectLikeTerms(m, a), Neg(CollectLikeTerms(m, b)));
      case Neg(a) =>
        LinearCollectKeyed(m, rel, atoms, a);
        CollectLinear(m, atoms, a);
        var inner := CollectLikeTerms(m, a);
        if inner.Add? { LinearPairKeyed(m, rel, atoms, Neg(inner.left), Neg(inner.right)); }
      case _ =>
    }
  }

  lemma {:induction false} LinearPythagorasKeyed(m: Lib, rel: Relation, atoms: set<Expr>, e: Expr)
    requires AllInert(m, atoms) && Linear(atoms, e)
    requires forall a | a in atoms :: PythagorasKeyed(m, rel, a)
    ensures PythagorasKeyed(m, rel, e)
  {
    if e in atoms || IsMultiple(atoms, e) {
    } else {
      match e
      case Add(_, _) =>
        FlattenLinear(m, atoms, e);
        ScanFindsNothing(m, FlattenSum(e), 0);
      case Sub(a, b) => LinearPythagorasKeyed(m, rel, atoms, a); LinearPythagorasKeyed(m, rel, atoms, b);
      case Neg(a) => LinearPythagorasKeyed(m, rel, atoms, a);
      case _ =>
    }
  }

  /** The atoms relate what the passes merge inside them, and among each other. */
  ghost predicate KeyedThroughout(m: Lib, rel: Relation, atoms: set<Expr>) {
    && AtomsKeyed(m, rel, atoms)
    && forall a | a in atoms :: CollectKeyed(m, rel, a) && PythagorasKeyed(m, rel, a)
  }

  lemma LinearRoundKeyed(m: Lib, rel: Relation, atoms: set<Expr>, e: Expr)
    requires AllInert(m, atoms) && KeyedThroughout(m, rel, atoms) && Linear(atoms, e)
    ensures RoundKeyed(m, rel, e)
  {
    var e1 := ApplyPythagoras(m, e);
    LinearPythagorasKeyed(m, rel, atoms, e);
    PythagorasLinear(m, atoms, e);
    PassesWithoutEffect(m, atoms, e1);
    LinearCollectKeyed(m, rel, atoms, e1);
    CollectLinear(m, atoms, e1);
    var e3 := Simplify(m, CollectLikeTerms(m, e1));
    CollectedSimplified(m, atoms, CollectLikeTerms(m, e1));
    NegDistributeLinear(m, atoms, e3);
    PassesWithoutEffect(m, atoms, NegDistribute(e3));
    LinearCollectKeyed(m, rel, atoms, NegDistribute(e3));
  }

  lemma {:induction false} RoundsLinear(m: Lib, atoms: set<Expr>, e: Expr, k: nat)
    requires AllInert(m, atoms) && Linear(atoms, e)
    ensures Linear(atoms, Iterate(RoundOf(m), e, k))
    decreases k
  {
    if k == 0 {
      assert Iterate(RoundOf(m), e, 0) == e;
    } else {
      assert Iterate(RoundOf(m), e, k) == Iterate(RoundOf(m), RoundOf(m)(e), k - 1);
      hide Iterate, RoundOf, Round, Linear, AllInert, IsSettled, SameCoefficients;
      RoundLinear(m, atoms, e);
      RoundOfIsRound(m, e);
      RoundsLinear(m, atoms, Round(m, e), k - 1);
    }
  }

  lemma LinearRunKeyed(m: Lib, rel: Relation, atoms: set<Expr>, e: Expr)
    requires AllInert(m, atoms) && KeyedThroughout(m, rel, atoms) && Linear(atoms, e)
    ensures RunKeyed(m, rel, e)
  {
    forall k: nat ensures KeyedAfter(m, rel, e, k) {
      RoundsLinear(m, atoms, e, k);
      LinearRoundKeyed(m, rel, atoms, Iterate(RoundOf(m), e, k));
    }
  }

  /** What has to hold of a run holds of every run on linear combinations when it holds of their atoms. */
  lemma LinearEquivalentKeyed(m: Lib, rel: Relation, atoms: set<Expr>, a: Expr, b: Expr)
    requires AllInert(m, atoms) && KeyedThroughout(m, rel, atoms) && Linear(atoms, a) && Linear(atoms, b)
    ensures EquivalentKeyed(m, rel, a, b)
  {
    LinearRunKeyed(m, rel, atoms, a);
    LinearRunKeyed(m, rel, atoms, b);
    RoundLinear(m, atoms, a);
    RoundLinear(m, atoms, b);
    LinearCanonicalizes(m, atoms, a);
    LinearCanonicalizes(m, atoms, b);
    LinearRunKeyed(m, rel, atoms, Sub(Round(m, a), Round(m, b)));
    forall ca: Expr, cb: Expr | EquivalentVia(m, a, b, ca, cb) && ca != cb ensures RunKeyed(m, rel, Sub(ca, cb)) {
      CanonicalFormUnique(m, a, ca, Round(m, a));
      CanonicalFormUnique(m, b, cb, Round(m, b));
    }
  }
}
