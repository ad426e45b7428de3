/** Products of two linear factors: `equivalent` decides them against quadratic polynomials. */
module Quadratics {
  import opened Wrappers
  import opened Expressions
  import opened RealFacts
  import opened Printing
  import opened Parsing
  import opened RoundTrip
  import opened Ordering
  import opened Simplification
  import opened SimplificationSound
  import opened Rewriting
  import opened LikeTerms
  import opened LikeTermsSound
  import opened Equivalence
  import opened LinearSums
  import opened CanonicalSums
  import opened LinearEquivalence
  import opened PrintedKeys
  import opened Expansion

  // ----- terms whose factors simplify to atoms or literals -----

  predicate IsPart(m: Lib, atoms: set<Expr>, t: Term) {
    Simplify(m, t.factor).Num? || Simplify(m, t.factor) in atoms
  }

  /** What the term contributes to a linear combination. */
  function PartOf(m: Lib, t: Term): Expr {
    var f := Simplify(m, t.factor);
    if f.Num? then Num(Times(t.coeff, f.n)) else Mul(Num(t.coeff), f)
  }

  function PartCoefficient(m: Lib, t: Term, key: string): real {
    Coefficient(m, PartOf(m, t), key)
  }

  function PartsCoefficient(m: Lib, ts: seq<Term>, key: string): real {
    if ts == [] then 0.0 else PartCoefficient(m, ts[0], key) + PartsCoefficient(m, ts[1..], key)
  }

  /** The two terms contribute to different atoms, and not both to the constant. */
  predicate PartsDiffer(m: Lib, s: Term, t: Term) {
    var f, g := Simplify(m, s.factor), Simplify(m, t.factor);
    f != g && !(f.Num? && g.Num?)
  }

  lemma {:induction false} CoefficientOfLiteral(m: Lib, n: real, key: string)
    ensures Coefficient(m, Num(n), key) == if key == "1" then n else 0.0
  {
    var t := Term(n, Num(1.0), true);
    assert ExtractTerms(Num(n)) == [t] && [t][1..] == [];
    assert CoefficientOf(m, [t][1..], key) == 0.0;
  }

  lemma {:induction false} CoefficientOfMultiple(m: Lib, c: real, a: Expr, key: string)
    ensures Coefficient(m, Mul(Num(c), a), key) == if key == m.show(a) then c else 0.0
  {
    var t := Term(c, a, false);
    assert ExtractTerms(Mul(Num(c), a)) == [t] && [t][1..] == [];
    assert CoefficientOf(m, [t][1..], key) == 0.0;
  }

  lemma {:induction false} CoefficientOfAtom(m: Lib, a: Expr, key: string)
    requires Inert(m, a)
    ensures Coefficient(m, a, key) == if key == m.show(a) then 1.0 else 0.0
  {
    var t := Term(1.0, a, false);
    assert ExtractTerms(a) == [t] && [t][1..] == [];
    assert CoefficientOf(m, [t][1..], key) == 0.0;
  }

  // ----- adding such terms one after the other -----

  /** One step of rebuilding a sum. */
  function JoinTerm(sum: Expr, t: Term): Expr {
    if t.coeff > 0.0 then Add(sum, ScaledTerm(t.coeff, t.factor)) else Sub(sum, ScaledTerm(t.coeff, t.factor))
  }

  function JoinTerms(sum: Expr, ts: seq<Term>): Expr
    decreases |ts|
  {
    if ts == [] then sum else JoinTerms(JoinTerm(sum, ts[0]), ts[1..])
  }

  lemma {:induction false} JoinAppend(sum: Expr, a: seq<Term>, b: seq<Term>)
    ensures JoinTerms(sum, a + b) == JoinTerms(JoinTerms(sum, a), b)
    decreases |a|
  {
    if a == [] {
      assert a + b == b;
    } else {
      assert (a + b)[0] == a[0] && (a + b)[1..] == a[1..] + b;
      JoinAppend(JoinTerm(sum, a[0]), a[1..], b);
    }
  }

  lemma {:induction false} PositivesJoined(sum: Expr, gs: seq<Group>)
    ensures AddPositives(sum, gs) == JoinTerms(sum, SignedTerms(gs, true))
    decreases |gs|
  {
    if gs != [] {
      if gs[0].coeff > 0.0 {
        var t, rest := TermOf(gs[0]), SignedTerms(gs[1..], true);
        assert ([t] + rest)[0] == t && ([t] + rest)[1..] == rest;
        PositivesJoined(JoinTerm(sum, t), gs[1..]);
      } else {
        PositivesJoined(sum, gs[1..]);
      }
    }
  }

  lemma {:induction false} NegativesJoined(sum: Expr, gs: seq<Group>)
    ensures SubtractNegatives(sum, gs) == JoinTerms(sum, SignedTerms(gs, false))
    decreases |gs|
  {
    if gs != [] {
      if gs[0].coeff > 0.0 {
        NegativesJoined(sum, gs[1..]);
      } else {
        var t, rest := TermOf(gs[0]), SignedTerms(gs[1..], false);
        assert ([t] + rest)[0] == t && ([t] + rest)[1..] == rest;
        NegativesJoined(JoinTerm(sum, t), gs[1..]);
      }
    }
  }

  /** A literal, an atom or a multiple of it, as the passes leave them. */
  predicate IsUnitOf(f: Expr, e: Expr) {
    if f.Num? then e.Num? else e == f || (e.Mul? && e.left.Num? && e.right == f)
  }

  /** The sum of terms with these factors, simplified: 0, a sum, or one of the terms. */
  ghost predicate IsJoined(m: Lib, atoms: set<Expr>, factors: set<Expr>, e: Expr) {
    && Linear(atoms, e) && Simplify(m, e) == e && FoldNumeric(m, e) == e
    && (IsSum(e) || e == Num(0.0) || exists f | f in factors :: IsSignedUnitOf(f, e))
  }

  predicate IsSignedUnitOf(f: Expr, e: Expr) {
    IsUnitOf(f, e) || (e.Neg? && !f.Num? && IsUnitOf(f, e.arg))
  }

  /** The term without its sign becomes a unit. */
  lemma {:induction false} ScaledPart(m: Lib, atoms: set<Expr>, t: Term)
    requires AllInert(m, atoms) && IsPart(m, atoms, t) && t.coeff != 0.0
    ensures var u, f := Simplify(m, ScaledTerm(t.coeff, t.factor)), Simplify(m, t.factor);
            && IsUnitOf(f, u) && Linear(atoms, u) && Simplify(m, u) == u && FoldNumeric(m, u) == u
            && !IsSum(u) && !u.Neg? && (u.Num? <==> f.Num?)
            && forall key: string :: Coefficient(m, u, key) ==
                 (if t.coeff > 0.0 then PartCoefficient(m, t, key) else -PartCoefficient(m, t, key))
  {
    var c, f := Mag(t.coeff), Simplify(m, t.factor);
    var u := Simplify(m, ScaledTerm(t.coeff, t.factor));
    if f.Num? {
      LiteralPart(m, t, c, f.n);
    } else {
      AtomPart(m, t, c, f);
    }
    forall key: string
      ensures Coefficient(m, u, key) ==
              (if t.coeff > 0.0 then PartCoefficient(m, t, key) else -PartCoefficient(m, t, key))
    {
      if f.Num? {
        CoefficientOfLiteral(m, Times(c, f.n), key);
        CoefficientOfLiteral(m, Times(t.coeff, f.n), key);
        TimesNegates(t.coeff, f.n);
      } else {
        CoefficientOfMultiple(m, c, f, key);
        CoefficientOfMultiple(m, t.coeff, f, key);
        CoefficientOfAtom(m, f, key);
      }
    }
  }

  lemma {:induction false} LiteralPart(m: Lib, t: Term, c: real, n: real)
    requires Simplify(m, t.factor) == Num(n) && c == Mag(t.coeff) && t.coeff != 0.0
    ensures Simplify(m, ScaledTerm(t.coeff, t.factor)) == Num(Times(c, n))
    ensures Simplify(m, Num(Times(c, n))) == Num(Times(c, n)) == FoldNumeric(m, Num(Times(c, n)))
  {
    LiteralStays(m, c);
    LiteralStays(m, Times(c, n));
    LiteralProduct(c, n);
    hide Simplify, FoldNumeric;
    ProductSimplified(m, Num(c), t.factor);
    assert c == 1.0 ==> Times(c, n) == n;
  }

  lemma {:induction false} AtomPart(m: Lib, t: Term, c: real, f: Expr)
    requires Simplify(m, t.factor) == f && Inert(m, f) && c == Mag(t.coeff) && t.coeff != 0.0
    ensures var u := Simplify(m, ScaledTerm(t.coeff, t.factor));
            && u == (if c == 1.0 then f else Mul(Num(c), f)) && Simplify(m, u) == u == FoldNumeric(m, u)
  {
    LiteralStays(m, c);
    assert c != 1.0 ==> MulRules(Num(c), f) == Mul(Num(c), f);
    if c != 1.0 { ScaledAtomStays(m, c, f); }
    hide Simplify, FoldNumeric;
    ProductSimplified(m, Num(c), t.factor);
  }

  /** One more term with another factor. */
  lemma {:induction false} TermJoined(m: Lib, atoms: set<Expr>, factors: set<Expr>, sum: Expr, t: Term)
    requires AllInert(m, atoms) && IsPart(m, atoms, t) && t.coeff != 0.0
    requires factors <= atoms + set f | f in factors && f.Num?
    requires IsJoined(m, atoms, factors, Simplify(m, sum))
    requires Simplify(m, t.factor) !in factors
    requires Simplify(m, t.factor).Num? ==> forall f | f in factors :: !f.Num?
    ensures IsJoined(m, atoms, factors + {Simplify(m, t.factor)}, Simplify(m, JoinTerm(sum, t)))
    ensures forall key: string :: Coefficient(m, Simplify(m, JoinTerm(sum, t)), key) ==
                                  Coefficient(m, Simplify(m, sum), key) + PartCoefficient(m, t, key)
  {
    var s, u, g := Simplify(m, sum), Simplify(m, ScaledTerm(t.coeff, t.factor)), Simplify(m, t.factor);
    ScaledPart(m, atoms, t);
    SumsSimplified(m, sum, ScaledTerm(t.coeff, t.factor));
    assert g in factors + {g};
    UnitsJoin(m, atoms, factors, s, u, g);
    forall key: string
      ensures Coefficient(m, Simplify(m, JoinTerm(sum, t)), key) == Coefficient(m, s, key) + PartCoefficient(m, t, key)
    {
      assert Coefficient(m, u, key) ==
             (if t.coeff > 0.0 then PartCoefficient(m, t, key) else -PartCoefficient(m, t, key));
    }
  }

  /** A unit that is not among the factors of a sum is added to it or subtracted from it. */
  lemma {:induction false} UnitsJoin(m: Lib, atoms: set<Expr>, factors: set<Expr>, s: Expr, u: Expr, g: Expr)
    requires AllInert(m, atoms) && factors <= atoms + set f | f in factors && f.Num?
    requires IsJoined(m, atoms, factors, s) && g !in factors && (g.Num? ==> forall f | f in factors :: !f.Num?)
    requires (g.Num? || g in atoms) && IsUnitOf(g, u) && (u.Num? <==> g.Num?) && !IsSum(u) && !u.Neg?
    requires Linear(atoms, u) && Simplify(m, u) == u && FoldNumeric(m, u) == u
    ensures IsJoined(m, atoms, factors + {g}, FoldNumeric(m, AddRules(s, u)))
    ensures IsJoined(m, atoms, factors + {g}, FoldNumeric(m, SubRules(s, u)))
    ensures forall key: string :: Coefficient(m, FoldNumeric(m, AddRules(s, u)), key) ==
                                  Coefficient(m, s, key) + Coefficient(m, u, key)
    ensures forall key: string :: Coefficient(m, FoldNumeric(m, SubRules(s, u)), key) ==
                                  Coefficient(m, s, key) - Coefficient(m, u, key)
  {
    UnitRules(m, atoms, factors, s, u, g);
    JoinsStay(m, s, u);
    JoinedCoefficients(m, s, u);
    LiteralStays(m, 0.0);
    assert IsSignedUnitOf(g, u) && (!u.Num? ==> IsSignedUnitOf(g, Neg(u))) && g in factors + {g};
    assert forall f | f in factors :: f in factors + {g};
    hide Simplify, FoldNumeric, AddRules, SubRules, Coefficient;
    assert FoldNumeric(m, AddRules(s, u)) == JoinedSum(s, u);
    assert FoldNumeric(m, SubRules(s, u)) == JoinedDifference(s, u);
  }

  function JoinedSum(s: Expr, u: Expr): Expr {
    if s == Num(0.0) then u else if u == Num(0.0) then s else Add(s, u)
  }

  function JoinedDifference(s: Expr, u: Expr): Expr {
    if u == Num(0.0) then s
    else if s == Num(0.0) then (if u.Num? then Num(-u.n) else Neg(u))
    else Sub(s, u)
  }

  lemma {:induction false} JoinedCoefficients(m: Lib, s: Expr, u: Expr)
    ensures forall key: string ::
              Coefficient(m, JoinedSum(s, u), key) == Coefficient(m, s, key) + Coefficient(m, u, key)
    ensures forall key: string ::
              Coefficient(m, JoinedDifference(s, u), key) == Coefficient(m, s, key) - Coefficient(m, u, key)
  {
    forall key: string
      ensures Coefficient(m, JoinedSum(s, u), key) == Coefficient(m, s, key) + Coefficient(m, u, key)
      ensures Coefficient(m, JoinedDifference(s, u), key) == Coefficient(m, s, key) - Coefficient(m, u, key)
    {
      hide Coefficient;
      CoefficientSums(m, s, u, key);
      CoefficientSums(m, u, u, key);
      CoefficientOfLiteral(m, 0.0, key);
      if u.Num? {
        CoefficientOfLiteral(m, u.n, key);
        CoefficientOfLiteral(m, -u.n, key);
      }
    }
  }

  lemma {:induction false} UnitRules(m: Lib, atoms: set<Expr>, factors: set<Expr>, s: Expr, u: Expr, g: Expr)
    requires AllInert(m, atoms) && factors <= atoms + set f | f in factors && f.Num?
    requires IsJoined(m, atoms, factors, s) && g !in factors && (g.Num? ==> forall f | f in factors :: !f.Num?)
    requires (g.Num? || g in atoms) && IsUnitOf(g, u) && (u.Num? <==> g.Num?) && !IsSum(u) && !u.Neg?
    ensures AddRules(s, u) == JoinedSum(s, u) && SubRules(s, u) == JoinedDifference(s, u)
  {
    if !IsSum(s) && s != Num(0.0) {
      var f :| f in factors && IsSignedUnitOf(f, s);
      assert f.Num? || f in atoms;
      UnitsDiffer(m, atoms, f, g, s, u);
    }
  }

  lemma {:induction false} UnitsDiffer(m: Lib, atoms: set<Expr>, f: Expr, g: Expr, s: Expr, u: Expr)
    requires AllInert(m, atoms) && (f.Num? || f in atoms) && (g.Num? || g in atoms)
    requires f != g && !(f.Num? && g.Num?) && IsSignedUnitOf(f, s) && IsUnitOf(g, u) && (u.Num? <==> g.Num?)
    ensures s != u && !(s.Num? && u.Num?) && !IsNegOf(s, u)
  {
    assert !f.Num? ==> Inert(m, f);
    assert !g.Num? ==> Inert(m, g);
  }

  lemma {:induction false} JoinsStay(m: Lib, s: Expr, u: Expr)
    requires Simplify(m, s) == s && Simplify(m, u) == u && !IsSum(u) && !u.Neg?
    ensures FoldNumeric(m, Add(s, u)) == Add(s, u) && FoldNumeric(m, Sub(s, u)) == Sub(s, u)
    ensures AddRules(s, u) == Add(s, u) ==> Simplify(m, Add(s, u)) == Add(s, u)
    ensures SubRules(s, u) == Sub(s, u) ==> Simplify(m, Sub(s, u)) == Sub(s, u)
    ensures !u.Num? ==> Simplify(m, Neg(u)) == Neg(u) == FoldNumeric(m, Neg(u))
    ensures u.Num? ==> Simplify(m, Num(-u.n)) == Num(-u.n) == FoldNumeric(m, Num(-u.n))
  {
    if u.Num? { LiteralStays(m, -u.n); }
    hide Simplify, FoldNumeric;
    JoinedFolds(m, s, u);
    JoinedFolds(m, u, u);
  }

  /** Terms whose factors are new, one after the other. */
  ghost predicate FactorsNew(m: Lib, factors: set<Expr>, ts: seq<Term>) {
    && (forall t | t in ts :: NewFactor(m, factors, t))
    && forall i, j | 0 <= i < j < |ts| :: PartsDiffer(m, ts[i], ts[j])
  }

  predicate NewFactor(m: Lib, factors: set<Expr>, t: Term) {
    var f := Simplify(m, t.factor);
    t.coeff != 0.0 && f !in factors && (f.Num? ==> forall g | g in factors :: !g.Num?)
  }

  lemma {:induction false} TermsJoined(m: Lib, atoms: set<Expr>, factors: set<Expr>, sum: Expr, ts: seq<Term>)
    requires AllInert(m, atoms) && (forall t | t in ts :: IsPart(m, atoms, t)) && FactorsNew(m, factors, ts)
    requires factors <= atoms + set f | f in factors && f.Num?
    requires IsJoined(m, atoms, factors, Simplify(m, sum))
    ensures var r := Simplify(m, JoinTerms(sum, ts));
            && Linear(atoms, r) && Simplify(m, r) == r
            && forall key: string :: Coefficient(m, r, key) ==
                                     Coefficient(m, Simplify(m, sum), key) + PartsCoefficient(m, ts, key)
    decreases |ts|
  {
    if ts != [] {
      var t, f := ts[0], Simplify(m, ts[0].factor);
      assert t in ts && NewFactor(m, factors, t) && IsPart(m, atoms, t);
      TermJoined(m, atoms, factors, sum, t);
      forall s | s in ts[1..] ensures NewFactor(m, factors + {f}, s) {
        var i :| 0 <= i < |ts[1..]| && ts[1..][i] == s;
        assert ts[i + 1] == s && s in ts && NewFactor(m, factors, s) && PartsDiffer(m, ts[0], ts[i + 1]);
      }
      forall i, j | 0 <= i < j < |ts[1..]| ensures PartsDiffer(m, ts[1..][i], ts[1..][j]) {
        assert PartsDiffer(m, ts[i + 1], ts[j + 1]);
      }
      TermsJoined(m, atoms, factors + {f}, JoinTerm(sum, t), ts[1..]);
    }
  }

  // ----- collecting such terms -----

  /** Groups with different keys contribute to different atoms. */
  ghost predicate GroupsDiffer(m: Lib, gs: seq<Group>) {
    forall g, h | g in gs && h in gs && g.key != h.key :: PartsDiffer(m, TermOf(g), TermOf(h))
  }

  lemma {:induction false} SignedFrom(gs: seq<Group>, positive: bool)
    ensures forall t | t in SignedTerms(gs, positive) :: IsTermOfSign(gs, positive, t)
  {
    if gs != [] {
      SignedFrom(gs[1..], positive);
      assert gs == [gs[0]] + gs[1..] && gs[0] in gs;
      forall t | t in SignedTerms(gs, positive) ensures IsTermOfSign(gs, positive, t) {
        if t in SignedTerms(gs[1..], positive) {
          assert IsTermOfSign(gs[1..], positive, t);
          var g :| g in gs[1..] && t == TermOf(g) && (g.coeff > 0.0) == positive;
          assert g in gs;
        }
      }
    }
  }

  ghost predicate IsTermOfSign(gs: seq<Group>, positive: bool, t: Term) {
    exists g :: g in gs && t == TermOf(g) && (g.coeff > 0.0) == positive
  }

  lemma {:induction false} SignedDiffer(m: Lib, gs: seq<Group>, positive: bool)
    requires Ranked(gs) && GroupsDiffer(m, gs)
    ensures forall i, j | 0 <= i < j < |SignedTerms(gs, positive)| ::
              PartsDiffer(m, SignedTerms(gs, positive)[i], SignedTerms(gs, positive)[j])
  {
    if gs != [] {
      assert gs == [gs[0]] + gs[1..] && gs[0] in gs;
      SignedDiffer(m, gs[1..], positive);
      SignedFrom(gs[1..], positive);
      var tail := SignedTerms(gs[1..], positive);
      forall j | 0 <= j < |tail| ensures PartsDiffer(m, TermOf(gs[0]), tail[j]) {
        assert IsTermOfSign(gs[1..], positive, tail[j]);
        var h :| h in gs[1..] && tail[j] == TermOf(h);
        var k :| 0 <= k < |gs[1..]| && gs[1..][k] == h;
        assert gs[k + 1] == h && h in gs;
      }
    }
  }

  lemma {:induction false} BySignNew(m: Lib, gs: seq<Group>)
    requires Ranked(gs) && GroupsDiffer(m, gs) && forall g | g in gs :: g.coeff != 0.0
    ensures FactorsNew(m, {}, BySign(gs))
    ensures forall t | t in BySign(gs) :: exists g :: g in gs && t == TermOf(g)
  {
    var ps, ns := SignedTerms(gs, true), SignedTerms(gs, false);
    SignedFrom(gs, true);
    SignedFrom(gs, false);
    SignedDiffer(m, gs, true);
    SignedDiffer(m, gs, false);
    forall t | t in BySign(gs) ensures NewFactor(m, {}, t) && exists g :: g in gs && t == TermOf(g) {
      assert t in ps || t in ns;
      assert IsTermOfSign(gs, true, t) || IsTermOfSign(gs, false, t);
    }
    forall s, t | s in ps && t in ns ensures PartsDiffer(m, s, t) {
      assert IsTermOfSign(gs, true, s) && IsTermOfSign(gs, false, t);
      var g :| g in gs && s == TermOf(g) && g.coeff > 0.0;
      var h :| h in gs && t == TermOf(h) && !(h.coeff > 0.0);
      RankedKeysDiffer(gs, g, h);
    }
  }

  function GroupsCoefficient(m: Lib, gs: seq<Group>, key: string): real {
    if gs == [] then 0.0 else PartCoefficient(m, TermOf(gs[0]), key) + GroupsCoefficient(m, gs[1..], key)
  }

  lemma {:induction false} BySignCoefficient(m: Lib, gs: seq<Group>, key: string)
    ensures PartsCoefficient(m, SignedTerms(gs, true), key) + PartsCoefficient(m, SignedTerms(gs, false), key)
         == GroupsCoefficient(m, gs, key)
  {
    if gs != [] {
      BySignCoefficient(m, gs[1..], key);
      hide PartCoefficient;
      assert forall rest: seq<Term> :: ([TermOf(gs[0])] + rest)[1..] == rest;
    }
  }

  lemma {:induction false} PartsAppend(m: Lib, a: seq<Term>, b: seq<Term>, key: string)
    ensures PartsCoefficient(m, a + b, key) == PartsCoefficient(m, a, key) + PartsCoefficient(m, b, key)
  {
    if a == [] {
      assert a + b == b;
    } else {
      hide PartCoefficient;
      assert (a + b)[0] == a[0] && (a + b)[1..] == a[1..] + b;
      PartsAppend(m, a[1..], b, key);
    }
  }

  lemma {:induction false} InsertParts(m: Lib, g: Group, gs: seq<Group>, key: string)
    ensures GroupsCoefficient(m, InsertGroup(g, gs), key) ==
            PartCoefficient(m, TermOf(g), key) + GroupsCoefficient(m, gs, key)
  {
    hide PartCoefficient, GroupLeq;
    if gs == [] || GroupLeq(g, gs[0]) {
      assert ([g] + gs)[1..] == gs;
    } else {
      InsertParts(m, g, gs[1..], key);
      assert InsertGroup(g, gs)[1..] == InsertGroup(g, gs[1..]);
    }
  }

  lemma {:induction false} SortParts(m: Lib, gs: seq<Group>, key: string)
    ensures GroupsCoefficient(m, SortGroups(gs), key) == GroupsCoefficient(m, gs, key)
  {
    if gs != [] {
      SortParts(m, gs[1..], key);
      if gs[0].coeff == 0.0 {
        EmptyPart(m, TermOf(gs[0]), key);
      } else {
        InsertParts(m, gs[0], SortGroups(gs[1..]), key);
      }
    }
  }

  lemma {:induction false} EmptyPart(m: Lib, t: Term, key: string)
    requires t.coeff == 0.0
    ensures PartCoefficient(m, t, key) == 0.0
  {
    var f := Simplify(m, t.factor);
    if f.Num? {
      assert Times(0.0, f.n) == 0.0;
      CoefficientOfLiteral(m, 0.0, key);
    } else {
      CoefficientOfMultiple(m, 0.0, f, key);
    }
  }

  /** Collecting terms that simplify to parts keeps what they contribute to every key. */
  lemma {:induction false} CollectedParts(m: Lib, atoms: set<Expr>, a: Expr, b: Expr, gs: seq<Group>)
    requires AllInert(m, atoms) && gs == GroupTerms(m, [], ExtractTerms(a) + ExtractTerms(b))
    requires GroupsDiffer(m, gs) && forall g | g in gs :: IsPart(m, atoms, TermOf(g))
    ensures var r := CollectAddPair(m, a, b);
            && Linear(atoms, r) && Simplify(m, r) == r
            && forall key: string :: Coefficient(m, r, key) == GroupsCoefficient(m, gs, key)
  {
    var sorted := SortGroups(gs);
    var ts := BySign(sorted);
    GroupTermsExact(m, [], ExtractTerms(a) + ExtractTerms(b), "");
    SortRanks(gs, "");
    BySignNew(m, sorted);
    PositivesJoined(Num(0.0), sorted);
    NegativesJoined(AddPositives(Num(0.0), sorted), sorted);
    JoinAppend(Num(0.0), SignedTerms(sorted, true), SignedTerms(sorted, false));
    LiteralStays(m, 0.0);
    TermsJoined(m, atoms, {}, Num(0.0), ts);
    assert CollectAddPair(m, a, b) == Simplify(m, JoinTerms(Num(0.0), ts));
    forall key: string ensures Coefficient(m, CollectAddPair(m, a, b), key) == GroupsCoefficient(m, gs, key) {
      CoefficientOfLiteral(m, 0.0, key);
      PartsAppend(m, SignedTerms(sorted, true), SignedTerms(sorted, false), key);
      BySignCoefficient(m, sorted, key);
      SortParts(m, gs, key);
    }
  }

  // ----- a variable and its square -----

  function Square(x: Expr): Expr {
    Pow(x, Num(2.0))
  }

  /** The variable and its square, the atoms of quadratic polynomials. */
  function Monomials(x: Expr): set<Expr> {
    {x, Square(x)}
  }

  predicate StartsNumber(s: string) {
    s != [] && (IsDigit(s[0]) || s[0] == '-')
  }

  lemma {:induction false} NumberStarts(n: real)
    ensures StartsNumber(PrintNum(n))
  {
    if IsInteger(n) {
      var i := ToI64(n);
      hide ToI64, Decimal;
      DecimalStarts(if i < 0 then -i else i);
    } else {
      DecimalsStart(if n < 0.0 then -n else n);
    }
  }

  lemma {:induction false} DecimalsStart(size: real)
    requires size >= 0.0
    ensures StartsNumber(PrintDecimals(size))
  {
    hide Decimal, Fixed, StripZeros;
    var scaled: nat := (size * 10_000_000_000 as real + 0.5).Floor;
    DecimalStarts(scaled / 10_000_000_000);
  }

  lemma {:induction false} DecimalStarts(n: nat)
    ensures Decimal(n) != [] && IsDigit(Decimal(n)[0])
  {
    if n >= 10 {
      DecimalStarts(n / 10);
    } else {
      DigitFacts(n);
    }
  }

  /** The printed forms of a variable, its square and its product with itself. */
  lemma {:induction false} PrintedMonomials(x: Expr)
    requires x.Var? && OrdinaryName(x.name)
    ensures Print(x) == x.name && |Print(Square(x))| > |x.name| && Print(Square(x))[0] == x.name[0]
    ensures |Print(Mul(x, x))| > |x.name|
  {
    assert Operand(x, PowPrec) == Print(x) == x.name == Operand(x, MulPrec);
    assert Print(Square(x)) == (x.name + "^") + Operand(Num(2.0), PowPrec);
    assert Print(Mul(x, x)) == (x.name + "*") + x.name;
  }

  lemma {:induction false} MonomialKeys(m: Lib, x: Expr, b: real)
    requires UsesPrintedKeys(m) && x.Var? && OrdinaryName(x.name)
    ensures m.show(x) != m.show(Square(x)) && m.show(x) != m.show(Mul(x, x))
    ensures m.show(x) != "1" && m.show(Square(x)) != "1"
    ensures m.show(Num(b)) != m.show(x) && m.show(Num(b)) != m.show(Square(x))
  {
    PrintedMonomials(x);
    NumberStarts(b);
    assert m.show(x) == Print(x) && m.show(Square(x)) == Print(Square(x));
    assert m.show(Mul(x, x)) == Print(Mul(x, x)) && m.show(Num(b)) == Print(Num(b)) == PrintNum(b);
    assert "1"[0] == '1';
  }

  lemma {:induction false} SquareStays(m: Lib, x: Expr)
    requires x.Var?
    ensures Simplify(m, Mul(x, x)) == Square(x) == Simplify(m, Square(x)) && FoldNumeric(m, Square(x)) == Square(x)
    ensures Expand(m, Square(x)) == Square(x) && Simplify(m, x) == x
  {
    NextPower(m, x, 1);
    NextPower(m, x, 2);
    PowerStays(m, x, 2.0);
    assert Simplify(m, x) == x && Expand(m, x) == x;
    assert Expand(m, Mul(x, x)) == Distribute(Mul(x, x)) == Mul(x, x);
    hide Simplify, FoldNumeric, Distribute, Expand;
    SquareIsProduct(m, x);
  }

  lemma {:induction false} MonomialsInert(m: Lib, x: Expr)
    requires UsesPrintedKeys(m) && x.Var? && OrdinaryName(x.name)
    ensures AllInert(m, Monomials(x))
  {
    MonomialKeys(m, x, 0.0);
    SquareStays(m, x);
    LiteralStays(m, 2.0);
    SquareUntouched(m, x);
    assert Inert(m, x) by { hide Print; }
    hide Simplify, FoldNumeric, Expand, ApplyPythagoras, CancelExpLog, CollectLikeTerms, NegDistribute, CanonicalizeDiv;
    assert Inert(m, Square(x));
  }

  lemma {:induction false} SquareUntouched(m: Lib, x: Expr)
    requires x.Var?
    ensures var q := Square(x);
            && ApplyPythagoras(m, q) == q && CancelExpLog(q) == q && Distribute(q) == q
            && CollectLikeTerms(m, q) == q && NegDistribute(q) == q && CanonicalizeDiv(q) == q
  {
    var two := Num(2.0);
    assert ApplyPythagoras(m, two) == two && CancelExpLog(two) == two && CollectLikeTerms(m, two) == two;
    assert NegDistribute(two) == two && CanonicalizeDiv(two) == two;
  }

  // ----- (x + a) * (x + b) -----

  /** x * x and a multiple of x are collected as x^2 and a multiple of x. */
  lemma {:induction false} SquareAndMultiple(m: Lib, x: Expr, b: real)
    requires UsesPrintedKeys(m) && x.Var? && OrdinaryName(x.name)
    ensures var r := CollectAddPair(m, Mul(x, x), Mul(x, Num(b)));
            Linear(Monomials(x), r) && SameCoefficients(m, Add(Square(x), Mul(Num(b), x)), r)
  {
    var u, v := Term(1.0, Mul(x, x), false), Term(b, x, false);
    MonomialsInert(m, x);
    MonomialKeys(m, x, b);
    SquareStays(m, x);
    var gs := TwoGroups(m, u, v);
    assert ExtractTerms(Mul(x, x)) == [u] && ExtractTerms(Mul(x, Num(b))) == [v];
    TwoTermsGrouped(m, u, v);
    CollectedParts(m, Monomials(x), Mul(x, x), Mul(x, Num(b)), gs);
    forall key: string
      ensures Coefficient(m, Add(Square(x), Mul(Num(b), x)), key)
           == Coefficient(m, CollectAddPair(m, Mul(x, x), Mul(x, Num(b))), key)
    {
      TwoGroupsCoefficient(m, u, v, key);
      CoefficientSums(m, Square(x), Mul(Num(b), x), key);
      CoefficientOfMultiple(m, 1.0, Square(x), key);
      CoefficientOfAtom(m, Square(x), key);
    }
  }

  function TwoGroups(m: Lib, u: Term, v: Term): seq<Group> {
    [Group(KeyOf(m, u), u.coeff, u), Group(KeyOf(m, v), v.coeff, v)]
  }

  lemma {:induction false} TwoTermsGrouped(m: Lib, u: Term, v: Term)
    requires KeyOf(m, u) != KeyOf(m, v)
    ensures GroupTerms(m, [], [u] + [v]) == TwoGroups(m, u, v)
  {
    var g := Group(KeyOf(m, u), u.coeff, u);
    assert [u] + [v] == [u, v] && [u, v][1..] == [v] && [v][1..] == [];
    assert AddToGroups(m, [], u) == [g];
    assert [g][1..] == [] && AddToGroups(m, [g], v) == [g] + AddToGroups(m, [], v) == TwoGroups(m, u, v);
    assert GroupTerms(m, [], [u, v]) == GroupTerms(m, [g], [v]) == GroupTerms(m, TwoGroups(m, u, v), []);
  }

  lemma {:induction false} TwoGroupsCoefficient(m: Lib, u: Term, v: Term, key: string)
    ensures GroupsCoefficient(m, TwoGroups(m, u, v), key) == PartCoefficient(m, u, key) + PartCoefficient(m, v, key)
  {
    hide PartCoefficient;
    var gs := TwoGroups(m, u, v);
    assert gs[1..] == [gs[1]] && gs[1..][1..] == [];
    assert TermOf(gs[0]) == u && TermOf(gs[1]) == v;
    assert GroupsCoefficient(m, gs[1..], key) == PartCoefficient(m, v, key) + GroupsCoefficient(m, gs[1..][1..], key);
  }

  /** The product of the constants joins a canonical sum as a constant, whatever key it is grouped under. */
  lemma {:induction false} LiteralProductJoins(m: Lib, x: Expr, c: Expr, a: real, b: real)
    requires UsesPrintedKeys(m) && x.Var? && OrdinaryName(x.name)
    requires IsCanonicalSum(m, Monomials(x), c) && c != Num(0.0) && Coefficient(m, c, "1") == 0.0
    ensures var r := CollectAddPair(m, c, Mul(Num(a), Num(b)));
            && Linear(Monomials(x), r) && Simplify(m, r) == r
            && SameCoefficients(m, Add(c, Num(Times(a, b))), r)
  {
    var atoms := Monomials(x);
    MonomialsInert(m, x);
    var ts :| IsChainOf(m, atoms, c, ts);
    ChainTerms(m, atoms, ts);
    var u := Term(a, Num(b), false);
    assert ExtractTerms(Mul(Num(a), Num(b))) == [u];
    LiteralStays(m, b);
    MonomialTerms(m, x, ts, u);
    hide Linear, Arranged, Simplify, SameCoefficients, AllInert, IsPart, DifferentKeys, GroupsDiffer, Times;
    PartsApart(m, atoms, ts, u);
    assert GroupsOf(m, []) == [] && [] + (ts + [u]) == ts + [u];
    GroupedApart(m, [], ts + [u]);
    CollectedParts(m, atoms, c, Mul(Num(a), Num(b)), GroupsOf(m, ts + [u]));
    SameWithLiteral(m, atoms, c, ts, u, CollectAddPair(m, c, Mul(Num(a), Num(b))));
  }

  /** The terms of a canonical sum without a constant, and one with a literal as its factor. */
  lemma {:induction false} MonomialTerms(m: Lib, x: Expr, ts: seq<Term>, u: Term)
    requires UsesPrintedKeys(m) && x.Var? && OrdinaryName(x.name) && Arranged(m, Monomials(x), ts)
    requires CoefficientOf(m, ts, "1") == 0.0 && u.factor.Num? && !u.isConst
    ensures forall t: Term | t in ts :: !t.isConst && IsTermOver(Monomials(x), t)
    ensures DifferentKeys(m, ts + [u])
  {
    MonomialKeys(m, x, u.factor.n);
    forall t: Term | t in ts ensures !t.isConst && IsTermOver(Monomials(x), t) && KeyOf(m, t) != KeyOf(m, u) {
      assert IsProper(Monomials(x), t);
      ArrangedCoefficient(m, Monomials(x), ts, t);
    }
    KeysApart(m, Monomials(x), ts, u);
  }

  lemma {:induction false} SameWithLiteral(m: Lib, atoms: set<Expr>, c: Expr, ts: seq<Term>, u: Term, r: Expr)
    requires AllInert(m, atoms) && u.factor.Num? && Simplify(m, u.factor) == u.factor && ExtractTerms(c) == ts
    requires forall t: Term | t in ts :: !t.isConst && IsTermOver(atoms, t)
    requires forall key: string :: Coefficient(m, r, key) == GroupsCoefficient(m, GroupsOf(m, ts + [u]), key)
    ensures SameCoefficients(m, Add(c, Num(Times(u.coeff, u.factor.n))), r)
  {
    forall key: string ensures Coefficient(m, Add(c, Num(Times(u.coeff, u.factor.n))), key) == Coefficient(m, r, key) {
      CoefficientSums(m, c, Num(Times(u.coeff, u.factor.n)), key);
      GroupsOfCoefficient(m, atoms, ts, u, key);
    }
  }

  /** The coefficient of a term's key in a canonical sum is the term's own. */
  lemma {:induction false} ArrangedCoefficient(m: Lib, atoms: set<Expr>, ts: seq<Term>, t: Term)
    requires Arranged(m, atoms, ts) && t in ts
    ensures CoefficientOf(m, ts, KeyOf(m, t)) == t.coeff != 0.0
  {
    assert IsProper(atoms, t);
    if t == ts[0] {
      forall s | s in ts[1..] ensures KeyOf(m, s) != KeyOf(m, t) {
        var i :| 0 <= i < |ts[1..]| && ts[1..][i] == s;
        assert Precedes(m, ts[0], ts[i + 1]);
      }
      AbsentKey(m, ts[1..], KeyOf(m, t));
    } else {
      var i :| 0 < i < |ts| && ts[i] == t;
      assert ts[1..][i - 1] == t && Precedes(m, ts[0], ts[i]);
      ArrangedCoefficient(m, atoms, ts[1..], t);
    }
  }

  lemma {:induction false} KeysApart(m: Lib, atoms: set<Expr>, ts: seq<Term>, u: Term)
    requires Arranged(m, atoms, ts) && forall t | t in ts :: KeyOf(m, t) != KeyOf(m, u)
    ensures DifferentKeys(m, ts + [u])
  {
    var us := ts + [u];
    forall i, j | 0 <= i < j < |us| ensures KeyOf(m, us[i]) != KeyOf(m, us[j]) {
      assert us[i] == ts[i] && ts[i] in ts;
      if j < |ts| { assert Precedes(m, ts[i], ts[j]); }
    }
  }

  lemma {:induction false} PartsApart(m: Lib, atoms: set<Expr>, ts: seq<Term>, u: Term)
    requires AllInert(m, atoms) && Arranged(m, atoms, ts) && (forall t | t in ts :: !t.isConst)
    requires u.factor.Num? && !u.isConst && Simplify(m, u.factor) == u.factor
    ensures GroupsDiffer(m, GroupsOf(m, ts + [u]))
    ensures forall g | g in GroupsOf(m, ts + [u]) :: IsPart(m, atoms, TermOf(g))
  {
    var us := ts + [u];
    var gs := GroupsOf(m, us);
    GroupsOfKeys(m, us);
    forall g | g in gs ensures TermOf(g) == u || (TermOf(g) in ts && g.key == KeyOf(m, TermOf(g))) {
      var i :| 0 <= i < |us| && gs[i] == g;
      assert us[i] == u || us[i] == ts[i];
    }
    forall t: Term | t in ts ensures t.factor in atoms && Simplify(m, t.factor) == t.factor && !t.factor.Num? {
      assert IsProper(atoms, t);
    }
    assert forall g | g in gs && TermOf(g) == u :: g.key == KeyOf(m, u);
  }

  lemma {:induction false} GroupsOfCoefficient(m: Lib, atoms: set<Expr>, ts: seq<Term>, u: Term, key: string)
    requires AllInert(m, atoms) && forall t | t in ts :: IsTermOver(atoms, t) && !t.isConst
    ensures GroupsCoefficient(m, GroupsOf(m, ts + [u]), key) == CoefficientOf(m, ts, key) + PartCoefficient(m, u, key)
  {
    if ts == [] {
      assert ts + [u] == [u] && [u][1..] == [];
      assert GroupsOf(m, [u][1..]) == [] && GroupsOf(m, [u]) == [Group(KeyOf(m, u), u.coeff, u)];
      assert TermOf(GroupsOf(m, [u])[0]) == u && GroupsOf(m, [u])[1..] == [];
    } else {
      var t := ts[0];
      assert t in ts && Inert(m, t.factor);
      assert (ts + [u])[0] == t && (ts + [u])[1..] == ts[1..] + [u];
      GroupsOfCoefficient(m, atoms, ts[1..], u, key);
      CoefficientOfMultiple(m, t.coeff, t.factor, key);
      assert GroupsOf(m, ts + [u]) == [Group(KeyOf(m, t), t.coeff, t)] + GroupsOf(m, ts[1..] + [u]);
      assert TermOf(Group(KeyOf(m, t), t.coeff, t)) == t;
      assert GroupsOf(m, ts + [u])[1..] == GroupsOf(m, ts[1..] + [u]);
    }
  }

  // ----- the decision -----

  /** x^2 + c*x + d. */
  function Quadratic(x: Expr, c: real, d: real): Expr {
    Add(Add(Square(x), Mul(Num(c), x)), Num(d))
  }

  function Factors(x: Expr, a: real, b: real): Expr {
    Mul(Add(x, Num(a)), Add(x, Num(b)))
  }

  lemma {:induction false} QuadraticCoefficients(m: Lib, x: Expr, c: real, d: real, key: string)
    requires UsesPrintedKeys(m) && x.Var? && OrdinaryName(x.name)
    ensures Coefficient(m, Quadratic(x, c, d), key) ==
            (if key == m.show(Square(x)) then 1.0 else 0.0) + (if key == m.show(x) then c else 0.0) +
            (if key == "1" then d else 0.0)
  {
    MonomialsInert(m, x);
    CoefficientSums(m, Add(Square(x), Mul(Num(c), x)), Num(d), key);
    CoefficientSums(m, Square(x), Mul(Num(c), x), key);
    CoefficientOfAtom(m, Square(x), key);
    CoefficientOfMultiple(m, c, x, key);
    CoefficientOfLiteral(m, d, key);
  }

  /** Quadratic polynomials have the same coefficients only if they are the same. */
  lemma {:induction false} QuadraticsDiffer(m: Lib, x: Expr, c: real, d: real, c': real, d': real)
    requires UsesPrintedKeys(m) && x.Var? && OrdinaryName(x.name)
    ensures SameCoefficients(m, Quadratic(x, c, d), Quadratic(x, c', d')) <==> c == c' && d == d'
  {
    MonomialKeys(m, x, 0.0);
    forall key: string
      ensures c == c' && d == d' ==>
                Coefficient(m, Quadratic(x, c, d), key) == Coefficient(m, Quadratic(x, c', d'), key)
    { }
    hide Quadratic;
    QuadraticCoefficients(m, x, c, d, m.show(x)); QuadraticCoefficients(m, x, c', d', m.show(x));
    QuadraticCoefficients(m, x, c, d, "1"); QuadraticCoefficients(m, x, c', d', "1");
  }

  lemma FactorsShape(x: Expr, a: real, b: real)
    ensures !Factors(x, a, b).Add?
  {
  }

  /** Expansion multiplies the factors out. */
  lemma {:induction false} FactorsExpanded(m: Lib, x: Expr, a: real, b: real)
    requires x.Var?
    ensures Expand(m, Identities(m, Factors(x, a, b))) ==
            Add(Add(Add(Mul(x, x), Mul(x, Num(b))), Mul(Num(a), x)), Mul(Num(a), Num(b)))
    ensures Identities(m, Factors(x, a, a).left) == Factors(x, a, a).left
  {
    SumUntouched(m, x, a);
    SumUntouched(m, x, b);
    var p := Factors(x, a, b);
    assert ApplyPythagoras(m, p) == p && CancelExpLog(p) == p;
    assert Expand(m, p) == Distribute(p);
    assert Distribute(Add(x, Num(a))) == Add(x, Num(a)) && Distribute(Add(x, Num(b))) == Add(x, Num(b));
  }

  lemma {:induction false} SumUntouched(m: Lib, x: Expr, a: real)
    requires x.Var?
    ensures var s := Add(x, Num(a)); ApplyPythagoras(m, s) == s && CancelExpLog(s) == s && Expand(m, s) == s
  {
    var s := Add(x, Num(a));
    var ts := [x, Num(a)];
    assert FlattenSum(s) == [x] + [Num(a)] == ts;
    ScanFindsNothing(m, ts, 0);
    assert ts[..1] == [x] && RebuildSum(ts[..1]) == x && RebuildSum(ts) == Add(x, Num(a));
  }

  /** The products of the expansion, as a linear combination of the monomials. */
  function Expanded(x: Expr, a: real, b: real): Expr {
    Add(Add(Add(Square(x), Mul(Num(b), x)), Mul(Num(a), x)), Num(Times(a, b)))
  }

  lemma {:induction false} ExpandedCoefficients(m: Lib, x: Expr, a: real, b: real)
    requires UsesPrintedKeys(m) && x.Var? && OrdinaryName(x.name)
    ensures SameCoefficients(m, Expanded(x, a, b), Quadratic(x, a + b, Times(a, b)))
    ensures Coefficient(m, Add(Add(Square(x), Mul(Num(b), x)), Mul(Num(a), x)), "1") == 0.0
    ensures Coefficient(m, Add(Add(Square(x), Mul(Num(b), x)), Mul(Num(a), x)), m.show(Square(x))) == 1.0
  {
    hide *;
    MonomialKeys(m, x, 0.0);
    assert Inert(m, Square(x)) by { SquareInert(m, x); }
    forall key: string
      ensures Coefficient(m, Expanded(x, a, b), key) == Coefficient(m, Quadratic(x, a + b, Times(a, b)), key)
    {
      ThreeTerms(m, x, a, b, key);
      QuadraticCoefficients(m, x, a + b, Times(a, b), key);
    }
    SameFromAll(m, Expanded(x, a, b), Quadratic(x, a + b, Times(a, b)));
    ThreeTerms(m, x, a, b, "1");
    ThreeTerms(m, x, a, b, m.show(Square(x)));
  }

  lemma {:induction false} SquareInert(m: Lib, x: Expr)
    requires UsesPrintedKeys(m) && x.Var? && OrdinaryName(x.name)
    ensures Inert(m, Square(x)) && Inert(m, x)
  {
    MonomialsInert(m, x);
  }

  lemma {:induction false} ThreeTerms(m: Lib, x: Expr, a: real, b: real, key: string)
    requires Inert(m, Square(x))
    ensures Coefficient(m, Add(Add(Square(x), Mul(Num(b), x)), Mul(Num(a), x)), key) ==
            (if key == m.show(Square(x)) then 1.0 else 0.0) + (if key == m.show(x) then a + b else 0.0)
    ensures Coefficient(m, Expanded(x, a, b), key) ==
            (if key == m.show(Square(x)) then 1.0 else 0.0) + (if key == m.show(x) then a + b else 0.0) +
            (if key == "1" then Times(a, b) else 0.0)
  {
    hide Coefficient, Inert, Times, Square;
    var two := Add(Square(x), Mul(Num(b), x));
    CoefficientSums(m, Add(two, Mul(Num(a), x)), Num(Times(a, b)), key);
    CoefficientSums(m, two, Mul(Num(a), x), key);
    CoefficientSums(m, Square(x), Mul(Num(b), x), key);
    CoefficientOfAtom(m, Square(x), key);
    CoefficientOfMultiple(m, b, x, key);
    CoefficientOfMultiple(m, a, x, key);
    CoefficientOfLiteral(m, Times(a, b), key);
  }

  /** Collecting what the expansion leaves. */
  lemma {:induction false} FactorsCollected(m: Lib, x: Expr, a: real, b: real)
    requires UsesPrintedKeys(m) && x.Var? && OrdinaryName(x.name)
    ensures var e := Add(Add(Add(Mul(x, x), Mul(x, Num(b))), Mul(Num(a), x)), Mul(Num(a), Num(b)));
            var r := Simplify(m, CollectLikeTerms(m, e));
            Linear(Monomials(x), r) && SameCoefficients(m, Expanded(x, a, b), r)
  {
    var atoms, xx, bx, ax := Monomials(x), Mul(x, x), Mul(x, Num(b)), Mul(Num(a), x);
    MonomialsInert(m, x);
    ProductsCollected(m, x, a, b);
    var c1 := CollectAddPair(m, xx, bx);
    var c2 := CollectAddPair(m, c1, ax);
    var l1 := Add(Square(x), Mul(Num(b), x));
    assert Linear(atoms, ax);
    ExpandedCoefficients(m, x, a, b);
    LiteralTimes(a, b);
    hide Simplify, CollectLikeTerms, CollectAddPair, Linear, Coefficient, AllInert, UsesPrintedKeys, IsCanonicalSum;
    SquareAndMultiple(m, x, b);
    CollectedSum(m, atoms, c1, ax);
    SameSums(m, l1, ax, c1, ax);
    SameTransitive(m, Add(l1, ax), Add(c1, ax), c2);
    NotZero(m, Add(l1, ax), c2, m.show(Square(x)));
    LiteralProductJoins(m, x, c2, a, b);
    SameSums(m, Add(l1, ax), Num(Times(a, b)), c2, Num(Times(a, b)));
    SameTransitive(m, Expanded(x, a, b), Add(c2, Num(Times(a, b))), CollectAddPair(m, c2, Mul(Num(a), Num(b))));
  }

  lemma {:induction false} LiteralTimes(a: real, b: real)
    ensures Times(a, b) == Times(b, a)
  {
  }

  lemma {:induction false} NotZero(m: Lib, l: Expr, r: Expr, key: string)
    requires SameCoefficients(m, l, r) && Coefficient(m, l, "1") == 0.0 && Coefficient(m, l, key) == 1.0
    ensures r != Num(0.0) && Coefficient(m, r, "1") == 0.0
  {
    assert Coefficient(m, l, key) == Coefficient(m, r, key) && Coefficient(m, l, "1") == Coefficient(m, r, "1");
    CoefficientOfLiteral(m, 0.0, key);
  }

  lemma {:induction false} ProductsCollected(m: Lib, x: Expr, a: real, b: real)
    requires x.Var?
    ensures CollectLikeTerms(m, Add(Add(Add(Mul(x, x), Mul(x, Num(b))), Mul(Num(a), x)), Mul(Num(a), Num(b)))) ==
            CollectAddPair(m, CollectAddPair(m, CollectAddPair(m, Mul(x, x), Mul(x, Num(b))), Mul(Num(a), x)),
                           Mul(Num(a), Num(b)))
  {
    hide CollectAddPair;
    var xx, bx, ax, ab := Mul(x, x), Mul(x, Num(b)), Mul(Num(a), x), Mul(Num(a), Num(b));
    assert CollectLikeTerms(m, x) == x;
    assert CollectLikeTerms(m, Num(a)) == Num(a) && CollectLikeTerms(m, Num(b)) == Num(b);
    assert CollectLikeTerms(m, xx) == xx && CollectLikeTerms(m, bx) == bx;
    assert CollectLikeTerms(m, ax) == ax && CollectLikeTerms(m, ab) == ab;
    assert CollectLikeTerms(m, Add(xx, bx)) == CollectAddPair(m, xx, bx);
    assert CollectLikeTerms(m, Add(Add(xx, bx), ax)) == CollectAddPair(m, CollectAddPair(m, xx, bx), ax);
  }

  lemma {:induction false} QuadraticIsLinear(x: Expr, c: real, d: real)
    ensures Linear(Monomials(x), Quadratic(x, c, d))
  {
    assert Linear(Monomials(x), Square(x)) && Linear(Monomials(x), Mul(Num(c), x)) && Linear(Monomials(x), Num(d));
    assert Linear(Monomials(x), Add(Square(x), Mul(Num(c), x)));
  }

  /** One round makes of e a settled combination of the monomials with the coefficients of l. */
  ghost predicate SettlesAs(m: Lib, x: Expr, e: Expr, l: Expr) {
    && IsSettled(m, Monomials(x), Round(m, e)) && Linear(Monomials(x), Round(m, e))
    && SameCoefficients(m, l, Round(m, e))
  }

  /** The loop stops there. */
  lemma {:induction false} SettledCanonicalizes(m: Lib, x: Expr, e: Expr, l: Expr)
    requires UsesPrintedKeys(m) && x.Var? && OrdinaryName(x.name) && SettlesAs(m, x, e, l)
    ensures CanonicalizesTo(m, e, Round(m, e))
  {
    hide Round, Linear, IsSettled, SameCoefficients;
    MonomialsInert(m, x);
    SettledStays(m, Monomials(x), Round(m, e));
    ReachedByOneRound(m, e);
  }

  /** What settles in one round is decided against quadratics. */
  lemma {:induction false} DecidedByCoefficients(m: Lib, x: Expr, e: Expr, l: Expr, s: real, p: real, c: real, d: real)
    requires UsesPrintedKeys(m) && x.Var? && OrdinaryName(x.name) && !e.Add?
    requires SettlesAs(m, x, e, l) && SameCoefficients(m, l, Quadratic(x, s, p))
    ensures Equivalent(m, e, Quadratic(x, c, d)) <==> c == s && d == p
  {
    var atoms, q := Monomials(x), Quadratic(x, c, d);
    MonomialsInert(m, x);
    QuadraticIsLinear(x, c, d);
    SettledCanonicalizes(m, x, e, l);
    RoundLinear(m, atoms, q);
    LinearCanonicalizes(m, atoms, q);
    hide Round, Linear, IsSettled, SameCoefficients, Equivalent;
    CanonicalFormsDecide(m, atoms, e, q, Round(m, e), Round(m, q), l, q);
    QuadraticsDiffer(m, x, s, p, c, d);
    SameBoth(m, l, Quadratic(x, s, p), q);
  }

  lemma {:induction false} SameBoth(m: Lib, a: Expr, b: Expr, c: Expr)
    requires SameCoefficients(m, a, b)
    ensures SameCoefficients(m, a, c) <==> SameCoefficients(m, b, c)
  {
    if SameCoefficients(m, b, c) { SameTransitive(m, a, b, c); }
    if SameCoefficients(m, a, c) {
      assert SameCoefficients(m, b, a);
      SameTransitive(m, b, a, c);
    }
  }

  /**
    With printed keys, (x + a)*(x + b) is reported equivalent to x^2 + c*x + d if and only
    if c is a + b and d is a*b, for all real coefficients.
    */
  lemma {:induction false} ProductsDecided(m: Lib, x: Expr, a: real, b: real, c: real, d: real)
    requires UsesPrintedKeys(m) && x.Var? && OrdinaryName(x.name)
    ensures CanonicalizesTo(m, Factors(x, a, b), Round(m, Factors(x, a, b)))
    ensures Equivalent(m, Factors(x, a, b), Quadratic(x, c, d)) <==> c == a + b && d == Times(a, b)
  {
    hide *;
    FactorsRound(m, x, a, b);
    ExpandedCoefficients(m, x, a, b);
    FactorsShape(x, a, b);
    SettledCanonicalizes(m, x, Factors(x, a, b), Expanded(x, a, b));
    DecidedByCoefficients(m, x, Factors(x, a, b), Expanded(x, a, b), a + b, Times(a, b), c, d);
  }

  lemma {:induction false} FactorsRound(m: Lib, x: Expr, a: real, b: real)
    requires UsesPrintedKeys(m) && x.Var? && OrdinaryName(x.name)
    ensures SettlesAs(m, x, Factors(x, a, b), Expanded(x, a, b))
  {
    var e := Factors(x, a, b);
    MonomialsInert(m, x);
    FactorsExpanded(m, x, a, b);
    FactorsCollected(m, x, a, b);
    hide Round, Simplify, CollectLikeTerms, Linear, SameCoefficients, IsSettled, Expand, Identities;
    var e3 := Simplify(m, CollectLikeTerms(m, Expand(m, Identities(m, e))));
    RoundAfterCollection(m, Monomials(x), e, e3);
    SameTransitive(m, Expanded(x, a, b), e3, Round(m, e));
  }

  // ----- (x + a)^2 -----

  /** A product of the variable and a literal, simplified. */
  lemma {:induction false} MultipleFolds(m: Lib, x: Expr, a: real)
    requires Inert(m, x) && x.Var?
    ensures var r := Simplify(m, Mul(x, Num(a)));
            r == if a == 0.0 then Num(0.0) else if a == 1.0 then x else Mul(x, Num(a))
    ensures var r := Simplify(m, Mul(Num(a), x));
            r == if a == 0.0 then Num(0.0) else if a == 1.0 then x else Mul(Num(a), x)
  {
    MultipleSimplified(m, Mul(x, Num(a)), a, x);
    MultipleSimplified(m, Mul(Num(a), x), a, x);
  }

  /** What expanding (x + a)^2 leaves. */
  function SquareExpanded(x: Expr, a: real): Expr {
    if a == 0.0 then Square(x)
    else if a == 1.0 then Add(Add(Add(Square(x), x), x), Num(1.0))
    else Add(Add(Add(Square(x), Mul(x, Num(a))), Mul(Num(a), x)), Num(Times(a, a)))
  }

  lemma {:induction false} SumOfSimplified(m: Lib, a: Expr, b: Expr, r: Expr, s: Expr)
    requires Simplify(m, a) == r == Simplify(m, r) && Simplify(m, b) == s == Simplify(m, s)
    requires AddRules(r, s) == Add(r, s)
    ensures Simplify(m, Add(a, b)) == Add(r, s) == Simplify(m, Add(r, s))
  {
    hide Simplify, FoldNumeric, AddRules;
    JoinedFolds(m, r, s);
    SumsSimplified(m, a, b);
  }

  lemma {:induction false} SquareProductsSimplified(m: Lib, x: Expr, a: real)
    requires UsesPrintedKeys(m) && x.Var? && OrdinaryName(x.name)
    ensures var e := Add(Add(Add(Mul(x, x), Mul(x, Num(a))), Mul(Num(a), x)), Mul(Num(a), Num(a)));
            Simplify(m, e) == SquareExpanded(x, a) == Simplify(m, SquareExpanded(x, a))
  {
    SquareInert(m, x);
    SquareStays(m, x);
    MultipleFolds(m, x, a);
    LiteralProducts(m, a);
    hide Simplify, FoldNumeric, Inert, UsesPrintedKeys, Times;
    if a == 0.0 {
      var xx, xa, ax, aa := Mul(x, x), Mul(x, Num(a)), Mul(Num(a), x), Mul(Num(a), Num(a));
      assert FoldNumeric(m, Square(x)) == Square(x);
      PaddedSum(m, xx, xa, Square(x));
      PaddedSum(m, Add(xx, xa), ax, Square(x));
      PaddedSum(m, Add(Add(xx, xa), ax), aa, Square(x));
    } else {
      SquareTermsSimplified(m, x, a, Times(a, a));
    }
  }

  lemma {:induction false} LiteralProducts(m: Lib, a: real)
    ensures var n := Times(a, a);
            && Simplify(m, Mul(Num(a), Num(a))) == Num(n) == Simplify(m, Num(n)) && (n == 0.0 <==> a == 0.0)
            && (a == 1.0 ==> n == 1.0)
  {
    LiteralStays(m, a);
    LiteralStays(m, Times(a, a));
    LiteralProduct(a, a);
    SquarePositive(a);
    hide Simplify, FoldNumeric;
    ProductSimplified(m, Num(a), Num(a));
  }

  lemma {:induction false} MultiplesStay(m: Lib, x: Expr, a: real)
    requires Inert(m, x) && x.Var? && a != 0.0
    ensures var u, v := if a == 1.0 then x else Mul(x, Num(a)), if a == 1.0 then x else Mul(Num(a), x);
            && Simplify(m, Mul(x, Num(a))) == u == Simplify(m, u)
            && Simplify(m, Mul(Num(a), x)) == v == Simplify(m, v)
  {
    MultipleFolds(m, x, a);
  }

  lemma SquareSumRules(x: Expr, a: real, n: real)
    requires x.Var? && n != 0.0
    ensures var u, v := if a == 1.0 then x else Mul(x, Num(a)), if a == 1.0 then x else Mul(Num(a), x);
            var s := Add(Square(x), u);
            && AddRules(Square(x), u) == s && AddRules(s, v) == Add(s, v)
            && AddRules(Add(s, v), Num(n)) == Add(Add(s, v), Num(n))
  {
  }

  lemma {:induction false} SquareTermsSimplified(m: Lib, x: Expr, a: real, n: real)
    requires Inert(m, x) && x.Var? && a != 0.0 && n != 0.0
    requires Simplify(m, Mul(x, x)) == Square(x) == Simplify(m, Square(x))
    requires Simplify(m, Mul(Num(a), Num(a))) == Num(n) == Simplify(m, Num(n))
    ensures var u, v := if a == 1.0 then x else Mul(x, Num(a)), if a == 1.0 then x else Mul(Num(a), x);
            var r := Add(Add(Add(Square(x), u), v), Num(n));
            && Simplify(m, Add(Add(Add(Mul(x, x), Mul(x, Num(a))), Mul(Num(a), x)), Mul(Num(a), Num(a)))) == r
            && Simplify(m, r) == r
  {
    var xx, xa, ax, aa := Mul(x, x), Mul(x, Num(a)), Mul(Num(a), x), Mul(Num(a), Num(a));
    var u, v := if a == 1.0 then x else xa, if a == 1.0 then x else ax;
    hide Simplify, FoldNumeric, Inert, AddRules, Square;
    MultiplesStay(m, x, a);
    SquareSumRules(x, a, n);
    SumOfSimplified(m, xx, xa, Square(x), u);
    SumOfSimplified(m, Add(xx, xa), ax, Add(Square(x), u), v);
    SumOfSimplified(m, Add(Add(xx, xa), ax), aa, Add(Add(Square(x), u), v), Num(n));
  }

  lemma {:induction false} SquareRound(m: Lib, x: Expr, a: real)
    requires UsesPrintedKeys(m) && x.Var? && OrdinaryName(x.name)
    ensures SettlesAs(m, x, Pow(Add(x, Num(a)), Num(2.0)), Expanded(x, a, a))
  {
    var s := Add(x, Num(a));
    var e := Pow(s, Num(2.0));
    var l := SquareExpanded(x, a);
    MonomialsInert(m, x);
    SquareIdentities(m, x, a);
    SquareIsProduct(m, s);
    FactorsExpanded(m, x, a, a);
    SquareProductsSimplified(m, x, a);
    SquareExpandedLinear(m, x, a);
    hide Round, Simplify, CollectLikeTerms, Linear, SameCoefficients, IsSettled, Expand, SquareExpanded, Identities;
    RoundAfterExpansion(m, Monomials(x), e, l);
    SameTransitive(m, Expanded(x, a, a), l, Round(m, e));
  }

  lemma {:induction false} SquareIdentities(m: Lib, x: Expr, a: real)
    requires x.Var?
    ensures Identities(m, Pow(Add(x, Num(a)), Num(2.0))) == Pow(Add(x, Num(a)), Num(2.0))
    ensures Identities(m, Factors(x, a, a)) == Factors(x, a, a)
  {
    SumUntouched(m, x, a);
    assert ApplyPythagoras(m, Num(2.0)) == Num(2.0) && CancelExpLog(Num(2.0)) == Num(2.0);
  }

  lemma {:induction false} SquareExpandedLinear(m: Lib, x: Expr, a: real)
    requires UsesPrintedKeys(m) && x.Var? && OrdinaryName(x.name)
    ensures Linear(Monomials(x), SquareExpanded(x, a)) && SameCoefficients(m, Expanded(x, a, a), SquareExpanded(x, a))
  {
    var u := if a == 1.0 then x else Mul(x, Num(a));
    var v := if a == 1.0 then x else Mul(Num(a), x);
    assert Linear(Monomials(x), Square(x)) && Linear(Monomials(x), u) && Linear(Monomials(x), v);
    assert Linear(Monomials(x), Add(Square(x), u)) && Linear(Monomials(x), Add(Add(Square(x), u), v));
    hide Linear, SameCoefficients, Coefficient;
    forall key: string
      ensures Coefficient(m, Expanded(x, a, a), key) == Coefficient(m, SquareExpanded(x, a), key)
    {
      SquareExpandedAt(m, x, a, key);
    }
    SameFromAll(m, Expanded(x, a, a), SquareExpanded(x, a));
  }

  lemma {:induction false} SquareExpandedAt(m: Lib, x: Expr, a: real, key: string)
    requires UsesPrintedKeys(m) && x.Var? && OrdinaryName(x.name)
    ensures Coefficient(m, Expanded(x, a, a), key) == Coefficient(m, SquareExpanded(x, a), key)
  {
    SquareInert(m, x);
    assert Times(1.0, 1.0) == 1.0 && Times(0.0, 0.0) == 0.0;
    hide UsesPrintedKeys, Inert, Coefficient, Times, Expanded, Quadratic;
    ExpandedAt(m, x, a, key);
    QuadraticCoefficients(m, x, a + a, Times(a, a), key);
    SquareSumCoefficient(m, x, a, if a == 1.0 then x else Mul(x, Num(a)), if a == 1.0 then x else Mul(Num(a), x), key);
    CoefficientOfAtom(m, Square(x), key);
  }

  lemma {:induction false} SameFromAll(m: Lib, a: Expr, b: Expr)
    requires forall key: string :: Coefficient(m, a, key) == Coefficient(m, b, key)
    ensures SameCoefficients(m, a, b)
  {
  }

  lemma {:induction false} ExpandedAt(m: Lib, x: Expr, a: real, key: string)
    requires UsesPrintedKeys(m) && x.Var? && OrdinaryName(x.name)
    ensures Coefficient(m, Expanded(x, a, a), key) == Coefficient(m, Quadratic(x, a + a, Times(a, a)), key)
  {
    hide Coefficient, Expanded, Quadratic;
    ExpandedCoefficients(m, x, a, a);
  }

  lemma {:induction false} SquareSumCoefficient(m: Lib, x: Expr, a: real, u: Expr, v: Expr, key: string)
    requires Inert(m, x) && Inert(m, Square(x))
    requires u == (if a == 1.0 then x else Mul(x, Num(a))) && v == if a == 1.0 then x else Mul(Num(a), x)
    ensures Coefficient(m, Add(Add(Add(Square(x), u), v), Num(Times(a, a))), key) ==
            (if key == m.show(Square(x)) then 1.0 else 0.0) + (if key == m.show(x) then a + a else 0.0) +
            (if key == "1" then Times(a, a) else 0.0)
  {
    hide Coefficient, Inert, Times, Square;
    SquareTermCoefficients(m, x, a, key);
    CoefficientSums(m, Add(Add(Square(x), u), v), Num(Times(a, a)), key);
    CoefficientSums(m, Add(Square(x), u), v, key);
    CoefficientSums(m, Square(x), u, key);
    CoefficientOfLiteral(m, Times(a, a), key);
    CoefficientOfAtom(m, Square(x), key);
  }

  lemma {:induction false} SquareTermCoefficients(m: Lib, x: Expr, a: real, key: string)
    requires Inert(m, x)
    ensures Coefficient(m, if a == 1.0 then x else Mul(x, Num(a)), key) == if key == m.show(x) then a else 0.0
    ensures Coefficient(m, if a == 1.0 then x else Mul(Num(a), x), key) == if key == m.show(x) then a else 0.0
  {
    CoefficientOfAtom(m, x, key);
    CoefficientOfMultiple(m, a, x, key);
    var t := Term(a, x, false);
    assert ExtractTerms(Mul(x, Num(a))) == [t] && [t][1..] == [];
    assert CoefficientOf(m, [t][1..], key) == 0.0;
  }

  /** (x + a)^2 is reported equivalent to x^2 + c*x + d if and only if c is 2*a and d is a*a. */
  lemma {:induction false} SquaresDecided(m: Lib, x: Expr, a: real, c: real, d: real)
    requires UsesPrintedKeys(m) && x.Var? && OrdinaryName(x.name)
    ensures Equivalent(m, Pow(Add(x, Num(a)), Num(2.0)), Quadratic(x, c, d)) <==> c == 2.0 * a && d == Times(a, a)
  {
    hide *;
    SquareRound(m, x, a);
    ExpandedCoefficients(m, x, a, a);
    DecidedByCoefficients(m, x, Pow(Add(x, Num(a)), Num(2.0)), Expanded(x, a, a), a + a, Times(a, a), c, d);
  }

  // ----- sin^2 + cos^2 -----

  /** sin^2 and cos^2 of one argument, in either order, are reported equivalent to 1, whatever the argument. */
  lemma {:induction false} PythagorasRecognized(m: Lib, u: Expr)
    ensures var s, c := Pow(Fn(Sin, u), Num(2.0)), Pow(Fn(Cos, u), Num(2.0));
            Equivalent(m, Add(s, c), Num(1.0)) && Equivalent(m, Add(c, s), Num(1.0))
  {
    var s, c := Pow(Fn(Sin, u), Num(2.0)), Pow(Fn(Cos, u), Num(2.0));
    SquaresPaired(m, s, c);
    SquaresPaired(m, c, s);
  }

  lemma {:induction false} SquaresPaired(m: Lib, s: Expr, c: Expr)
    requires Completes(m, s, c) && !s.Add? && !s.Sub? && !c.Add? && !c.Sub?
    ensures Equivalent(m, Add(s, c), Num(1.0))
  {
    var e, one := Add(s, c), Num(1.0);
    assert FlattenSum(e) == [s] + [c] == [s, c];
    assert FindPartner(m, [s, c], s, 1) == 1;
    assert Paired([s, c], 0, 1) == [one];
    assert FindPartner(m, [one], one, 1) == 1;
    assert PythagoreanScan(m, [one], 1) == ([one], false);
    assert PythagoreanScan(m, [s, c], 0) == ([one], true);
    LiteralStays(m, 1.0);
    assert CollectLikeTerms(m, one) == one && RebuildSum([one]) == one;
    assert ApplyPythagoras(m, e) == one;
    OneStays(m);
    assert Round(m, e) == Round(m, one) == one by { hide ApplyPythagoras; RoundOfIdentity(m, e, one); }
    ReachedByOneRound(m, e);
    ReachedByOneRound(m, one);
    assert EquivalentVia(m, e, one, one, one);
  }

  lemma {:induction false} RoundOfIdentity(m: Lib, e: Expr, r: Expr)
    requires ApplyPythagoras(m, e) == r == ApplyPythagoras(m, r)
    ensures Round(m, e) == Round(m, r)
  {
  }

  lemma {:induction false} OneStays(m: Lib)
    ensures Round(m, Num(1.0)) == Num(1.0) && ApplyPythagoras(m, Num(1.0)) == Num(1.0)
  {
    var one := Num(1.0);
    LiteralStays(m, 1.0);
    assert CollectLikeTerms(m, one) == one && CancelExpLog(one) == one && NegDistribute(one) == one;
    assert CanonicalizeDiv(one) == one;
  }
}
