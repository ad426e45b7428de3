/** Sums in which sin^2 and cos^2 of one argument meet, wherever they stand among the summands. */
module PairedSquares {
  import opened Wrappers
  import opened Expressions
  import opened Iteration
  import opened Simplification
  import opened LikeTerms
  import opened Equivalence
  import opened LinearSums
  import opened LinearEquivalence

  /** t is a summand of e: sums are looked into on both sides, differences on the left. */
  predicate IsSummand(e: Expr, t: Expr) {
    match e
    case Add(a, b) => IsSummand(a, t) || IsSummand(b, t)
    case Sub(a, b) => IsSummand(a, t) || t == Neg(b)
    case _ => e == t
  }

  /** The rewrite searches exactly the summands. */
  lemma {:induction false} SummandsFlattened(e: Expr, t: Expr)
    ensures t in FlattenSum(e) <==> IsSummand(e, t)
  {
    match e
    case Add(a, b) => SummandsFlattened(a, t); SummandsFlattened(b, t);
    case Sub(a, b) => SummandsFlattened(a, t);
    case _ =>
  }

  /** The summands at i and j complete each other, and all others are linear. */
  ghost predicate IsPairAt(m: Lib, atoms: set<Expr>, ts: seq<Expr>, i: nat, j: nat) {
    && i < j < |ts| && Completes(m, ts[i], ts[j])
    && forall k | 0 <= k < |ts| && k != i && k != j :: Linear(atoms, ts[k])
  }

  lemma LinearIsNoSquare(m: Lib, atoms: set<Expr>, t: Expr)
    requires AllInert(m, atoms) && Linear(atoms, t)
    ensures NoSquare(t)
  {
  }

  /** Without the pair only linear terms are left, and no other summand is a square. */
  lemma WithoutPair(m: Lib, atoms: set<Expr>, ts: seq<Expr>, i: nat, j: nat)
    requires AllInert(m, atoms) && IsPairAt(m, atoms, ts, i, j)
    ensures forall t | t in Paired(ts, i, j) :: Linear(atoms, t) && NoSquare(t)
    ensures forall l | 0 <= l < |ts| && l != i && l != j :: NoSquare(ts[l])
  {
    assert Linear(atoms, Num(1.0));
    hide Linear, Completes, AllInert, NoSquare;
    var out := Paired(ts, i, j);
    forall t | t in out ensures Linear(atoms, t) && NoSquare(t) {
      var n :| 0 <= n < |out| && out[n] == t;
      assert out[n] == if n == i then Num(1.0) else if n < j then ts[n] else ts[n + 1];
      LinearIsNoSquare(m, atoms, t);
    }
    forall l | 0 <= l < |ts| && l != i && l != j ensures NoSquare(ts[l]) { LinearIsNoSquare(m, atoms, ts[l]); }
  }

  lemma PairFound(m: Lib, atoms: set<Expr>, ts: seq<Expr>, i: nat, j: nat)
    requires AllInert(m, atoms) && IsPairAt(m, atoms, ts, i, j)
    ensures PythagoreanScan(m, ts, 0) == (Paired(ts, i, j), true)
    ensures forall t | t in Paired(ts, i, j) :: Linear(atoms, t)
  {
    WithoutPair(m, atoms, ts, i, j);
    hide PythagoreanScan, Paired, Linear, AllInert, NoSquare, Completes;
    ScanReaches(m, ts, i, j, 0);
    ScanFindsNothing(m, Paired(ts, i, j), i + 1);
  }

  lemma {:induction false} ScanReaches(m: Lib, ts: seq<Expr>, i: nat, j: nat, k: nat)
    requires k <= i < j < |ts| && Completes(m, ts[i], ts[j])
    requires forall l | 0 <= l < |ts| && l != i && l != j :: NoSquare(ts[l])
    ensures PythagoreanScan(m, ts, k) == (PythagoreanScan(m, Paired(ts, i, j), i + 1).0, true)
    decreases i - k
  {
    hide PythagoreanScan, Paired, NoSquare, Completes;
    if k == i {
      ScanPairs(m, ts, i, j);
    } else {
      ScanSkips(m, ts, k);
      ScanReaches(m, ts, i, j, k + 1);
    }
  }

  lemma ScanSkips(m: Lib, ts: seq<Expr>, k: nat)
    requires k < |ts| && NoSquare(ts[k])
    ensures PythagoreanScan(m, ts, k) == PythagoreanScan(m, ts, k + 1)
  {
    assert FindPartner(m, ts, ts[k], k + 1) == |ts|;
  }

  lemma ScanPairs(m: Lib, ts: seq<Expr>, i: nat, j: nat)
    requires i < j < |ts| && Completes(m, ts[i], ts[j]) && forall l | i < l < j :: NoSquare(ts[l])
    ensures PythagoreanScan(m, ts, i) == (PythagoreanScan(m, Paired(ts, i, j), i + 1).0, true)
  {
    hide FindPartner, Paired;
    assert FindPartner(m, ts, ts[i], i + 1) == j;
  }

  /** One round puts 1 in the place of the pair and settles the sum that is left. */
  lemma PairedRound(m: Lib, atoms: set<Expr>, e: Expr, i: nat, j: nat)
    requires AllInert(m, atoms) && e.Add? && IsPairAt(m, atoms, FlattenSum(e), i, j)
    ensures CanonicalizesTo(m, e, Round(m, e)) && Linear(atoms, Round(m, e))
    ensures SameCoefficients(m, RebuildSum(Paired(FlattenSum(e), i, j)), Round(m, e))
  {
    var ts := FlattenSum(e);
    var out := Paired(ts, i, j);
    PairFound(m, atoms, ts, i, j);
    RebuildLinear(atoms, out);
    var l := RebuildSum(out);
    CollectLinear(m, atoms, l);
    CollectedSimplified(m, atoms, CollectLikeTerms(m, l));
    var s := Simplify(m, CollectLikeTerms(m, l));
    assert ApplyPythagoras(m, e) == s;
    hide ApplyPythagoras, CollectLikeTerms, Simplify, Paired, Linear;
    SameTransitive(m, l, CollectLikeTerms(m, l), s);
    PassesWithoutEffect(m, atoms, s);
    RoundAfterExpansion(m, atoms, e, s);
    SameTransitive(m, l, s, Round(m, e));
    SettledStays(m, atoms, Round(m, e));
    ReachedByOneRound(m, e);
  }

  lemma PairIsNotLinear(m: Lib, atoms: set<Expr>, e: Expr, i: nat, j: nat)
    requires AllInert(m, atoms) && IsPairAt(m, atoms, FlattenSum(e), i, j)
    ensures !Linear(atoms, e)
  {
    var square := FlattenSum(e)[i];
    assert square in FlattenSum(e);
    if Linear(atoms, e) { FlattenLinear(m, atoms, e); }
  }

  /**
    A sum of untouched terms that contains sin^2 and cos^2 of one argument anywhere is
    reported equivalent to a linear combination if and only if every key has the same
    summed coefficient in that and in the sum with 1 instead of the two.
    */
  lemma PairsDecided(m: Lib, atoms: set<Expr>, e: Expr, i: nat, j: nat, b: Expr)
    requires AllInert(m, atoms) && e.Add? && IsPairAt(m, atoms, FlattenSum(e), i, j) && Linear(atoms, b)
    ensures Equivalent(m, e, b) <==> SameCoefficients(m, RebuildSum(Paired(FlattenSum(e), i, j)), b)
  {
    PairedRound(m, atoms, e, i, j);
    RoundLinear(m, atoms, b);
    LinearCanonicalizes(m, atoms, b);
    PairIsNotLinear(m, atoms, e, i, j);
    CanonicalFormsDecide(m, atoms, e, b, Round(m, e), Round(m, b), RebuildSum(Paired(FlattenSum(e), i, j)), b);
  }

  /** For example, sin(u)^2 + a + cos(v)^2 is decided like 1 + a when u and v have one key. */
  lemma PairAround(m: Lib, atoms: set<Expr>, u: Expr, v: Expr, a: Expr, b: Expr)
    requires AllInert(m, atoms) && m.show(u) == m.show(v) && Linear(atoms, a) && Linear(atoms, b)
    ensures var s, c := Pow(Fn(Sin, u), Num(2.0)), Pow(Fn(Cos, v), Num(2.0));
            && (Equivalent(m, Add(Add(s, a), c), b) <==> SameCoefficients(m, Add(Num(1.0), a), b))
            && (Equivalent(m, Add(Add(c, a), s), b) <==> SameCoefficients(m, Add(Num(1.0), a), b))
  {
    var s, c := Pow(Fn(Sin, u), Num(2.0)), Pow(Fn(Cos, v), Num(2.0));
    SurroundedSum(m, atoms, s, c, a, b);
    SurroundedSum(m, atoms, c, s, a, b);
  }

  lemma SurroundedSum(m: Lib, atoms: set<Expr>, s: Expr, c: Expr, a: Expr, b: Expr)
    requires AllInert(m, atoms) && Completes(m, s, c) && Linear(atoms, a) && Linear(atoms, b)
    ensures Equivalent(m, Add(Add(s, a), c), b) <==> SameCoefficients(m, Add(Num(1.0), a), b)
  {
    var e, n := Add(Add(s, a), c), |FlattenSum(a)| + 1;
    hide Equivalent, Completes, AllInert, Linear;
    SurroundedTerms(m, atoms, s, c, a);
    PairsDecided(m, atoms, e, 0, n, b);
  }

  /** The pair stands at the ends of the list, and 1 takes its place before what is left. */
  lemma SurroundedTerms(m: Lib, atoms: set<Expr>, s: Expr, c: Expr, a: Expr)
    requires AllInert(m, atoms) && Completes(m, s, c) && Linear(atoms, a)
    ensures var ts, n := FlattenSum(Add(Add(s, a), c)), |FlattenSum(a)| + 1;
            && IsPairAt(m, atoms, ts, 0, n)
            && ExtractTerms(RebuildSum(Paired(ts, 0, n))) == ExtractTerms(Add(Num(1.0), a))
  {
    var inner, one := FlattenSum(a), Num(1.0);
    FlattenLinear(m, atoms, a);
    SurroundedList(s, c, a);
    PairAtEnds(m, atoms, s, c, inner);
    hide FlattenSum, Completes, AllInert, Linear, RebuildSum, Paired;
    RebuildLinear(atoms, [one] + inner);
    TermsOfAllAppend([one], inner);
    TermsOfOne(one);
    assert ExtractTerms(Add(one, a)) == ExtractTerms(one) + ExtractTerms(a);
  }

  lemma SurroundedList(s: Expr, c: Expr, a: Expr)
    requires s.Pow? && c.Pow?
    ensures FlattenSum(Add(Add(s, a), c)) == [s] + FlattenSum(a) + [c]
  {
    assert FlattenSum(s) == [s] && FlattenSum(c) == [c] && FlattenSum(Add(s, a)) == [s] + FlattenSum(a);
  }

  lemma PairAtEnds(m: Lib, atoms: set<Expr>, s: Expr, c: Expr, inner: seq<Expr>)
    requires Completes(m, s, c) && forall t | t in inner :: Linear(atoms, t)
    ensures var ts, n := [s] + inner + [c], |inner| + 1;
            IsPairAt(m, atoms, ts, 0, n) && Paired(ts, 0, n) == [Num(1.0)] + inner
    ensures forall t | t in [Num(1.0)] + inner :: Linear(atoms, t)
  {
    assert Linear(atoms, Num(1.0));
    hide Completes, Linear;
    var ts, n := [s] + inner + [c], |inner| + 1;
    forall k | 0 <= k < |ts| && k != 0 && k != n ensures Linear(atoms, ts[k]) { assert ts[k] == inner[k - 1]; }
    assert Paired(ts, 0, n) == [Num(1.0)] + inner;
  }
}
