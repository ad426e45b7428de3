/** What collecting the terms of a linear combination yields: its groups, in order, as one sum. */
module CanonicalSums {
  import opened Wrappers
  import opened Expressions
  import opened RealFacts
  import opened Ordering
  import opened Simplification
  import opened LikeTerms
  import opened LikeTermsSound
  import opened LinearSums

  // ----- sums in canonical form -----

  /** The term without its sign, the way the passes write it. */
  function Piece(t: Term): Expr {
    if t.isConst then Num(Mag(t.coeff))
    else if Mag(t.coeff) == 1.0 then t.factor
    else Mul(Num(Mag(t.coeff)), t.factor)
  }

  /** The sum of the terms, associated to the left. */
  function Chain(ts: seq<Term>): Expr {
    if ts == [] then Num(0.0)
    else
      var last := ts[|ts| - 1];
      if |ts| == 1 then
        (if last.coeff > 0.0 then Piece(last) else if last.isConst then Num(last.coeff) else Neg(Piece(last)))
      else if last.coeff > 0.0 then Add(Chain(ts[..|ts| - 1]), Piece(last))
      else Sub(Chain(ts[..|ts| - 1]), Piece(last))
  }

  predicate IsProper(atoms: set<Expr>, t: Term) {
    IsTermOver(atoms, t) && t.coeff != 0.0
  }

  /** The order of the groups: constants last, otherwise by key. */
  predicate TermLeq(m: Lib, s: Term, t: Term) {
    if s.isConst != t.isConst then t.isConst else StringLeq(KeyOf(m, s), KeyOf(m, t))
  }

  /** What holds of a term and a later one: other keys, positive ones first, each sign in order. */
  predicate Precedes(m: Lib, s: Term, t: Term) {
    && KeyOf(m, s) != KeyOf(m, t)
    && (t.coeff > 0.0 ==> s.coeff > 0.0)
    && ((s.coeff > 0.0 <==> t.coeff > 0.0) ==> TermLeq(m, s, t))
  }

  /** The terms of a canonical sum. */
  ghost predicate Arranged(m: Lib, atoms: set<Expr>, ts: seq<Term>) {
    && (forall t | t in ts :: IsProper(atoms, t))
    && forall i, j | 0 <= i < j < |ts| :: Precedes(m, ts[i], ts[j])
  }

  lemma ArrangedPrefix(m: Lib, atoms: set<Expr>, ts: seq<Term>, k: nat)
    requires Arranged(m, atoms, ts) && k <= |ts|
    ensures Arranged(m, atoms, ts[..k])
  {
  }

  /** A piece is atomic, and the passes leave it alone. */
  lemma PieceIsAtomic(m: Lib, atoms: set<Expr>, t: Term)
    requires AllInert(m, atoms) && IsProper(atoms, t)
    ensures var p := Piece(t);
            && (if t.isConst then p.Num? && p != Num(0.0) else p in atoms || (IsMultiple(atoms, p) && p.left.Num?))
            && Linear(atoms, p)
            && ExtractTerms(p) == [t.(coeff := Mag(t.coeff))]
            && Simplify(m, p) == p && FoldNumeric(m, p) == p
            && CollectLikeTerms(m, p) == p
  {
    var p := Piece(t);
    if !t.isConst && p.Mul? && p != t.factor {
      assert ExtractTerms(p) == [Term(p.left.n, p.right, false)];
      ScaledAtomStays(m, p.left.n, t.factor);
    }
  }

  /** A literal other than 0 and 1 times an inert term. */
  lemma ScaledAtomStays(m: Lib, c: real, a: Expr)
    requires Inert(m, a) && c != 0.0 && c != 1.0
    ensures Simplify(m, Mul(Num(c), a)) == Mul(Num(c), a) == FoldNumeric(m, Mul(Num(c), a))
    ensures Simplify(m, Mul(a, Num(c))) == Mul(a, Num(c)) == FoldNumeric(m, Mul(a, Num(c)))
  {
    assert Simplify(m, Num(c)) == Num(c);
    assert MulRules(Num(c), a) == Mul(Num(c), a) && MulRules(a, Num(c)) == Mul(a, Num(c));
    assert FoldNumeric(m, Mul(Num(c), a)) == Mul(Num(c), a) && FoldNumeric(m, Mul(a, Num(c))) == Mul(a, Num(c));
  }

  /** The term as it is written when a sum is rebuilt becomes its piece. */
  lemma ScaledTermSimplifies(m: Lib, atoms: set<Expr>, t: Term)
    requires AllInert(m, atoms) && IsProper(atoms, t)
    ensures Simplify(m, ScaledTerm(t.coeff, t.factor)) == Piece(t)
  {
    PieceIsAtomic(m, atoms, t);
    var c := Mag(t.coeff);
    if t.isConst && c != 1.0 {
      assert Simplify(m, Num(c)) == Num(c) && Simplify(m, Num(1.0)) == Num(1.0);
      assert MulRules(Num(c), Num(1.0)) == Num(c);
      assert FoldNumeric(m, Num(c)) == Num(c);
    }
  }

  /** Two pieces with different keys are different, and not both literals. */
  lemma PiecesDiffer(m: Lib, atoms: set<Expr>, s: Term, t: Term)
    requires AllInert(m, atoms) && IsProper(atoms, s) && IsProper(atoms, t) && KeyOf(m, s) != KeyOf(m, t)
    ensures Piece(s) != Piece(t) && !(Piece(s).Num? && Piece(t).Num?)
  {
    PieceIsAtomic(m, atoms, s);
    PieceIsAtomic(m, atoms, t);
  }

  /** One more term at the end of a canonical sum is what the sum rules make of it. */
  lemma {:induction false} ChainGrows(m: Lib, atoms: set<Expr>, ts: seq<Term>, t: Term)
    requires AllInert(m, atoms) && Arranged(m, atoms, ts + [t])
    requires Simplify(m, Chain(ts)) == Chain(ts)
    ensures if t.coeff > 0.0 then FoldNumeric(m, AddRules(Chain(ts), Piece(t))) == Chain(ts + [t])
            else FoldNumeric(m, SubRules(Chain(ts), Piece(t))) == Chain(ts + [t])
    ensures Simplify(m, Chain(ts + [t])) == Chain(ts + [t])
  {
    var us := ts + [t];
    assert us[|ts|] == t && us[..|ts|] == ts && t in us;
    PieceIsAtomic(m, atoms, t);
    if ts != [] {
      LastStepRules(m, atoms, ts, t);
      JoinedFolds(m, Chain(ts), Piece(t));
    } else {
      FirstStepRules(m, atoms, t);
    }
  }

  lemma JoinedFolds(m: Lib, a: Expr, b: Expr)
    requires Simplify(m, a) == a && Simplify(m, b) == b
    ensures FoldNumeric(m, Add(a, b)) == Add(a, b) && FoldNumeric(m, Sub(a, b)) == Sub(a, b)
    ensures FoldNumeric(m, Neg(a)) == Neg(a)
    ensures Simplify(m, Add(a, b)) == FoldNumeric(m, AddRules(a, b))
    ensures Simplify(m, Sub(a, b)) == FoldNumeric(m, SubRules(a, b))
    ensures Simplify(m, Neg(a)) == FoldNumeric(m, NegRules(a))
  {
  }

  /** The first term of a sum. */
  lemma FirstStepRules(m: Lib, atoms: set<Expr>, t: Term)
    requires AllInert(m, atoms) && IsProper(atoms, t)
    ensures Simplify(m, Chain([t])) == Chain([t])
    ensures if t.coeff > 0.0 then FoldNumeric(m, AddRules(Num(0.0), Piece(t))) == Chain([t])
            else FoldNumeric(m, SubRules(Num(0.0), Piece(t))) == Chain([t])
  {
    var p := Piece(t);
    PieceIsAtomic(m, atoms, t);
    JoinedFolds(m, p, p);
    if t.coeff <= 0.0 && !t.isConst {
      assert SubRules(Num(0.0), p) == Neg(p) && NegRules(p) == Neg(p);
    }
  }

  /** Every further term of a sum is added or subtracted as it is. */
  lemma LastStepRules(m: Lib, atoms: set<Expr>, ts: seq<Term>, t: Term)
    requires AllInert(m, atoms) && Arranged(m, atoms, ts + [t]) && ts != []
    ensures t.coeff > 0.0 ==> AddRules(Chain(ts), Piece(t)) == Add(Chain(ts), Piece(t))
    ensures t.coeff <= 0.0 ==> SubRules(Chain(ts), Piece(t)) == Sub(Chain(ts), Piece(t))
  {
    hide Simplify, FoldNumeric, CollectLikeTerms, ExtractTerms, KeyOf;
    var us := ts + [t];
    assert us[|ts|] == t && t in us;
    PieceIsAtomic(m, atoms, t);
    if |ts| == 1 {
      assert us[0] == ts[0] && ts[0] in us && Precedes(m, us[0], us[1]);
      PieceIsAtomic(m, atoms, ts[0]);
      PiecesDiffer(m, atoms, ts[0], t);
    }
  }

  /** A canonical sum is simplified. */
  lemma {:induction false} ChainSimplified(m: Lib, atoms: set<Expr>, ts: seq<Term>)
    requires AllInert(m, atoms) && Arranged(m, atoms, ts)
    ensures Simplify(m, Chain(ts)) == Chain(ts)
  {
    if ts == [] {
      assert Simplify(m, Num(0.0)) == Num(0.0);
    } else {
      var init, last := ts[..|ts| - 1], ts[|ts| - 1];
      ArrangedPrefix(m, atoms, ts, |ts| - 1);
      ChainSimplified(m, atoms, init);
      assert ts == init + [last];
      ChainGrows(m, atoms, init, last);
    }
  }

  lemma ChainUnfolds(ts: seq<Term>, t: Term)
    ensures ts != [] && t.coeff > 0.0 ==> Chain(ts + [t]) == Add(Chain(ts), Piece(t))
    ensures ts != [] && t.coeff <= 0.0 ==> Chain(ts + [t]) == Sub(Chain(ts), Piece(t))
    ensures Chain([t]) == if t.coeff > 0.0 then Piece(t) else if t.isConst then Num(t.coeff) else Neg(Piece(t))
  {
    assert (ts + [t])[|ts|] == t && (ts + [t])[..|ts|] == ts;
  }

  lemma ChainOfOne(m: Lib, atoms: set<Expr>, t: Term)
    requires AllInert(m, atoms) && IsProper(atoms, t)
    ensures Linear(atoms, Chain([t])) && ExtractTerms(Chain([t])) == [t]
    ensures ExtractTerms(Neg(Piece(t))) == [t.(coeff := -Mag(t.coeff))]
  {
    PieceIsAtomic(m, atoms, t);
    ChainUnfolds([], t);
    var p := [t.(coeff := Mag(t.coeff))];
    assert p[1..] == [];
    assert Negated(p) == [t.(coeff := -Mag(t.coeff))];
  }

  /** The terms of a canonical sum are read off again. */
  lemma {:induction false} ChainTerms(m: Lib, atoms: set<Expr>, ts: seq<Term>)
    requires AllInert(m, atoms) && Arranged(m, atoms, ts) && ts != []
    ensures Linear(atoms, Chain(ts)) && ExtractTerms(Chain(ts)) == ts
  {
    var init, t := ts[..|ts| - 1], ts[|ts| - 1];
    assert t in ts && ts == init + [t];
    ChainOfOne(m, atoms, t);
    if init != [] {
      ArrangedPrefix(m, atoms, ts, |ts| - 1);
      ChainTerms(m, atoms, init);
      LastTerm(m, atoms, init, t);
    } else {
      assert ts == [t];
    }
  }

  lemma LastTerm(m: Lib, atoms: set<Expr>, ts: seq<Term>, t: Term)
    requires AllInert(m, atoms) && IsProper(atoms, t) && ts != []
    requires Linear(atoms, Chain(ts)) && ExtractTerms(Chain(ts)) == ts
    ensures Linear(atoms, Chain(ts + [t])) && ExtractTerms(Chain(ts + [t])) == ts + [t]
  {
    ChainUnfolds(ts, t);
    ChainOfOne(m, atoms, t);
    PieceIsAtomic(m, atoms, t);
    assert ExtractTerms(Neg(Piece(t))) == Negated(ExtractTerms(Piece(t)));
  }

  // ----- grouping, sorting and rebuilding -----

  function TermOf(g: Group): Term {
    Term(g.coeff, g.first.factor, g.first.isConst)
  }

  /** The terms of the groups of one sign, in order. */
  function SignedTerms(gs: seq<Group>, positive: bool): seq<Term> {
    if gs == [] then []
    else if (gs[0].coeff > 0.0) == positive then [TermOf(gs[0])] + SignedTerms(gs[1..], positive)
    else SignedTerms(gs[1..], positive)
  }

  function BySign(gs: seq<Group>): seq<Term> {
    SignedTerms(gs, true) + SignedTerms(gs, false)
  }

  /** The terms of the sum that collecting `ts` leaves. */
  function Arrange(m: Lib, ts: seq<Term>): seq<Term> {
    BySign(SortGroups(GroupTerms(m, [], ts)))
  }

  lemma {:induction false} PositivesAdded(m: Lib, atoms: set<Expr>, sum: Expr, done: seq<Term>, gs: seq<Group>)
    requires AllInert(m, atoms) && Arranged(m, atoms, done + SignedTerms(gs, true))
    requires Simplify(m, sum) == Chain(done)
    ensures Simplify(m, AddPositives(sum, gs)) == Chain(done + SignedTerms(gs, true))
    decreases |gs|
  {
    if gs == [] {
      assert done + SignedTerms(gs, true) == done;
    } else if gs[0].coeff > 0.0 {
      var t, rest := TermOf(gs[0]), SignedTerms(gs[1..], true);
      assert done + SignedTerms(gs, true) == (done + [t]) + rest;
      TermAdded(m, atoms, sum, done, t, rest);
      PositivesAdded(m, atoms, Add(sum, ScaledTerm(t.coeff, t.factor)), done + [t], gs[1..]);
    } else {
      PositivesAdded(m, atoms, sum, done, gs[1..]);
    }
  }

  lemma {:induction false} NegativesSubtracted(m: Lib, atoms: set<Expr>, sum: Expr, done: seq<Term>, gs: seq<Group>)
    requires AllInert(m, atoms) && Arranged(m, atoms, done + SignedTerms(gs, false))
    requires Simplify(m, sum) == Chain(done)
    ensures Simplify(m, SubtractNegatives(sum, gs)) == Chain(done + SignedTerms(gs, false))
    decreases |gs|
  {
    if gs == [] {
      assert done + SignedTerms(gs, false) == done;
    } else if gs[0].coeff > 0.0 {
      NegativesSubtracted(m, atoms, sum, done, gs[1..]);
    } else {
      var t, rest := TermOf(gs[0]), SignedTerms(gs[1..], false);
      assert done + SignedTerms(gs, false) == (done + [t]) + rest;
      TermAdded(m, atoms, sum, done, t, rest);
      NegativesSubtracted(m, atoms, Sub(sum, ScaledTerm(t.coeff, t.factor)), done + [t], gs[1..]);
    }
  }

  /** One more term in the sum that is rebuilt is one more term in its simplified form. */
  lemma TermAdded(m: Lib, atoms: set<Expr>, sum: Expr, done: seq<Term>, t: Term, rest: seq<Term>)
    requires AllInert(m, atoms) && Arranged(m, atoms, (done + [t]) + rest) && Simplify(m, sum) == Chain(done)
    ensures t.coeff > 0.0 ==> Simplify(m, Add(sum, ScaledTerm(t.coeff, t.factor))) == Chain(done + [t])
    ensures t.coeff <= 0.0 ==> Simplify(m, Sub(sum, ScaledTerm(t.coeff, t.factor))) == Chain(done + [t])
  {
    var all := (done + [t]) + rest;
    assert all[..|done|] == done && all[..|done| + 1] == done + [t] && all[|done|] == t && t in all;
    ArrangedPrefix(m, atoms, all, |done|);
    ArrangedPrefix(m, atoms, all, |done| + 1);
    ChainSimplified(m, atoms, done);
    ChainGrows(m, atoms, done, t);
    ScaledTermSimplifies(m, atoms, t);
    SumsSimplified(m, sum, ScaledTerm(t.coeff, t.factor));
  }

  lemma SumsSimplified(m: Lib, a: Expr, b: Expr)
    ensures Simplify(m, Add(a, b)) == FoldNumeric(m, AddRules(Simplify(m, a), Simplify(m, b)))
    ensures Simplify(m, Sub(a, b)) == FoldNumeric(m, SubRules(Simplify(m, a), Simplify(m, b)))
  {
  }

  // ----- the groups of a linear combination -----

  /** Groups keyed by their first terms, which are terms of a linear combination. */
  ghost predicate GroupsOver(m: Lib, atoms: set<Expr>, gs: seq<Group>) {
    forall g | g in gs :: g.key == KeyOf(m, g.first) && IsTermOver(atoms, g.first)
  }

  lemma {:induction false} AddToGroupsOver(m: Lib, atoms: set<Expr>, gs: seq<Group>, t: Term)
    requires GroupsOver(m, atoms, gs) && IsTermOver(atoms, t)
    ensures GroupsOver(m, atoms, AddToGroups(m, gs, t))
  {
    if gs != [] {
      assert gs[0] in gs;
      if gs[0].key != KeyOf(m, t) { AddToGroupsOver(m, atoms, gs[1..], t); }
    }
  }

  lemma {:induction false} GroupTermsOver(m: Lib, atoms: set<Expr>, gs: seq<Group>, ts: seq<Term>)
    requires GroupsOver(m, atoms, gs) && forall t | t in ts :: IsTermOver(atoms, t)
    ensures GroupsOver(m, atoms, GroupTerms(m, gs, ts))
    decreases |ts|
  {
    if ts != [] {
      assert ts[0] in ts;
      AddToGroupsOver(m, atoms, gs, ts[0]);
      GroupTermsOver(m, atoms, AddToGroups(m, gs, ts[0]), ts[1..]);
    }
  }

  /** Groups in order, with different keys. */
  ghost predicate Ranked(gs: seq<Group>) {
    forall i, j | 0 <= i < j < |gs| :: gs[i].key != gs[j].key && GroupLeq(gs[i], gs[j])
  }

  lemma GroupLeqOrder(a: Group, b: Group, c: Group)
    ensures GroupLeq(a, b) || GroupLeq(b, a)
    ensures GroupLeq(a, b) && GroupLeq(b, c) ==> GroupLeq(a, c)
  {
    StringLeqTotal(a.key, b.key);
    if StringLeq(a.key, b.key) && StringLeq(b.key, c.key) { StringLeqTransitive(a.key, b.key, c.key); }
  }

  lemma {:induction false} InsertKeepsRank(g: Group, gs: seq<Group>)
    requires Ranked(gs) && forall h | h in gs :: h.key != g.key
    ensures Ranked(InsertGroup(g, gs))
    ensures forall h :: h in InsertGroup(g, gs) <==> h == g || h in gs
  {
    if gs == [] {
    } else if GroupLeq(g, gs[0]) {
      forall j | 0 <= j < |gs| ensures GroupLeq(g, gs[j]) && gs[j].key != g.key {
        assert gs[j] in gs;
        GroupLeqOrder(g, gs[0], gs[j]);
      }
    } else {
      InsertKeepsRank(g, gs[1..]);
      GroupLeqOrder(g, gs[0], g);
      var tail := InsertGroup(g, gs[1..]);
      assert gs == [gs[0]] + gs[1..];
      forall j | 0 <= j < |tail| ensures GroupLeq(gs[0], tail[j]) && gs[0].key != tail[j].key {
        assert tail[j] in tail && gs[0] in gs;
      }
    }
  }

  /** Sorting ranks the groups, drops exactly those with coefficient 0, and keeps the coefficient of every key. */
  lemma {:induction false} SortRanks(gs: seq<Group>, key: string)
    requires DistinctKeys(gs)
    ensures Ranked(SortGroups(gs))
    ensures forall h :: h in SortGroups(gs) <==> h in gs && h.coeff != 0.0
    ensures GroupCoefficient(SortGroups(gs), key) == GroupCoefficient(gs, key)
  {
    if gs != [] {
      SortRanks(gs[1..], key);
      assert gs == [gs[0]] + gs[1..];
      if gs[0].coeff != 0.0 {
        InsertKeepsRank(gs[0], SortGroups(gs[1..]));
        InsertCoefficient(gs[0], SortGroups(gs[1..]), key);
      }
    }
  }

  lemma {:induction false} InsertCoefficient(g: Group, gs: seq<Group>, key: string)
    ensures GroupCoefficient(InsertGroup(g, gs), key) ==
            GroupCoefficient(gs, key) + if g.key == key then g.coeff else 0.0
  {
    if gs == [] || GroupLeq(g, gs[0]) {
      assert ([g] + gs)[1..] == gs;
    } else {
      InsertCoefficient(g, gs[1..], key);
      assert InsertGroup(g, gs)[1..] == InsertGroup(g, gs[1..]);
    }
  }

  lemma {:induction false} SignedCoefficient(m: Lib, atoms: set<Expr>, gs: seq<Group>, key: string)
    requires GroupsOver(m, atoms, gs)
    ensures CoefficientOf(m, SignedTerms(gs, true), key) + CoefficientOf(m, SignedTerms(gs, false), key)
         == GroupCoefficient(gs, key)
  {
    if gs != [] {
      SignedCoefficient(m, atoms, gs[1..], key);
      var t := TermOf(gs[0]);
      assert gs[0] in gs;
      assert forall rest: seq<Term> :: ([t] + rest)[1..] == rest;
    }
  }

  lemma {:induction false} SignedArranged(m: Lib, atoms: set<Expr>, gs: seq<Group>, positive: bool)
    requires GroupsOver(m, atoms, gs) && Ranked(gs) && forall g | g in gs :: g.coeff != 0.0
    ensures forall t | t in SignedTerms(gs, positive) ::
              exists g :: g in gs && t == TermOf(g) && (g.coeff > 0.0) == positive
    ensures Arranged(m, atoms, SignedTerms(gs, positive))
  {
    if gs != [] {
      assert gs == [gs[0]] + gs[1..] && gs[0] in gs;
      SignedArranged(m, atoms, gs[1..], positive);
      var tail := SignedTerms(gs[1..], positive);
      forall j | 0 <= j < |tail| && (gs[0].coeff > 0.0) == positive ensures Precedes(m, TermOf(gs[0]), tail[j]) {
        assert tail[j] in tail;
        var g :| g in gs[1..] && tail[j] == TermOf(g) && (g.coeff > 0.0) == positive;
        var k :| 0 <= k < |gs[1..]| && gs[1..][k] == g;
        assert gs[k + 1] == g && g in gs;
      }
    }
  }

  /** The terms of ranked groups, positive ones first, form a canonical sum. */
  lemma BySignArranged(m: Lib, atoms: set<Expr>, gs: seq<Group>)
    requires GroupsOver(m, atoms, gs) && Ranked(gs) && forall g | g in gs :: g.coeff != 0.0
    ensures Arranged(m, atoms, BySign(gs))
  {
    SignedArranged(m, atoms, gs, true);
    SignedArranged(m, atoms, gs, false);
    var ps, ns := SignedTerms(gs, true), SignedTerms(gs, false);
    forall s, t | s in ps && t in ns ensures Precedes(m, s, t) {
      var g :| g in gs && s == TermOf(g) && g.coeff > 0.0;
      var h :| h in gs && t == TermOf(h) && !(h.coeff > 0.0);
      RankedKeysDiffer(gs, g, h);
    }
  }

  lemma RankedKeysDiffer(gs: seq<Group>, g: Group, h: Group)
    requires Ranked(gs) && g in gs && h in gs && g != h
    ensures g.key != h.key
  {
    var i :| 0 <= i < |gs| && gs[i] == g;
    var j :| 0 <= j < |gs| && gs[j] == h;
    assert i < j || j < i;
  }

  /** Collecting the terms of a linear combination yields a canonical sum with the same coefficients. */
  lemma ArrangeExact(m: Lib, atoms: set<Expr>, ts: seq<Term>)
    requires AllInert(m, atoms) && forall t | t in ts :: IsTermOver(atoms, t)
    ensures Arranged(m, atoms, Arrange(m, ts))
    ensures forall key: string :: CoefficientOf(m, Arrange(m, ts), key) == CoefficientOf(m, ts, key)
  {
    var all := GroupTerms(m, [], ts);
    var gs := SortGroups(all);
    GroupTermsOver(m, atoms, [], ts);
    forall key: string ensures CoefficientOf(m, Arrange(m, ts), key) == CoefficientOf(m, ts, key) {
      GroupTermsExact(m, [], ts, key);
      SortRanks(all, key);
      SignedCoefficient(m, atoms, gs, key);
      CoefficientAppend(m, SignedTerms(gs, true), SignedTerms(gs, false), key);
    }
    GroupTermsExact(m, [], ts, "");
    SortRanks(all, "");
    BySignArranged(m, atoms, gs);
  }

  /** `collect_add_pair` on linear combinations. */
  lemma CollectedPair(m: Lib, atoms: set<Expr>, a: Expr, b: Expr)
    requires AllInert(m, atoms) && forall t | t in ExtractTerms(a) + ExtractTerms(b) :: IsTermOver(atoms, t)
    ensures CollectAddPair(m, a, b) == Chain(Arrange(m, ExtractTerms(a) + ExtractTerms(b)))
    ensures Arranged(m, atoms, Arrange(m, ExtractTerms(a) + ExtractTerms(b)))
  {
    var ts := ExtractTerms(a) + ExtractTerms(b);
    var gs := SortGroups(GroupTerms(m, [], ts));
    assert Simplify(m, Num(0.0)) == Num(0.0) == Chain([]);
    hide ExtractTerms, GroupTerms, SortGroups, IsTermOver, AllInert, Simplify;
    ArrangeExact(m, atoms, ts);
    var ps := SignedTerms(gs, true);
    assert Arrange(m, ts)[..|ps|] == ps && [] + ps == ps;
    ArrangedPrefix(m, atoms, Arrange(m, ts), |ps|);
    PositivesAdded(m, atoms, Num(0.0), [], gs);
    NegativesSubtracted(m, atoms, AddPositives(Num(0.0), gs), ps, gs);
  }

  // ----- a canonical sum is collected already -----

  function GroupsOf(m: Lib, ts: seq<Term>): seq<Group> {
    if ts == [] then [] else [Group(KeyOf(m, ts[0]), ts[0].coeff, ts[0])] + GroupsOf(m, ts[1..])
  }

  lemma {:induction false} GroupsOfKeys(m: Lib, ts: seq<Term>)
    ensures |GroupsOf(m, ts)| == |ts|
    ensures forall i | 0 <= i < |ts| :: GroupsOf(m, ts)[i] == Group(KeyOf(m, ts[i]), ts[i].coeff, ts[i])
  {
    if ts != [] { GroupsOfKeys(m, ts[1..]); }
  }

  lemma {:induction false} NewKeyAppended(m: Lib, gs: seq<Group>, t: Term)
    requires forall g | g in gs :: g.key != KeyOf(m, t)
    ensures AddToGroups(m, gs, t) == gs + [Group(KeyOf(m, t), t.coeff, t)]
  {
    if gs != [] {
      assert gs[0] in gs;
      NewKeyAppended(m, gs[1..], t);
    }
  }

  ghost predicate DifferentKeys(m: Lib, ts: seq<Term>) {
    forall i, j | 0 <= i < j < |ts| :: KeyOf(m, ts[i]) != KeyOf(m, ts[j])
  }

  lemma {:induction false} GroupedApart(m: Lib, done: seq<Term>, ts: seq<Term>)
    requires DifferentKeys(m, done + ts)
    ensures GroupTerms(m, GroupsOf(m, done), ts) == GroupsOf(m, done + ts)
    decreases |ts|
  {
    if ts == [] {
      assert done + ts == done;
    } else {
      var t := ts[0];
      assert (done + [t]) + ts[1..] == done + ts && (done + ts)[|done|] == t;
      GroupsOfKeys(m, done);
      GroupsOfKeys(m, done + [t]);
      forall g | g in GroupsOf(m, done) ensures g.key != KeyOf(m, t) {
        var i :| 0 <= i < |done| && GroupsOf(m, done)[i] == g;
        assert (done + ts)[i] == done[i];
      }
      NewKeyAppended(m, GroupsOf(m, done), t);
      assert GroupsOf(m, done + [t]) == GroupsOf(m, done) + [Group(KeyOf(m, t), t.coeff, t)];
      GroupedApart(m, done + [t], ts[1..]);
    }
  }

  /** A group that comes before all of its sign is inserted before all of its sign. */
  lemma {:induction false} InsertSigned(g: Group, gs: seq<Group>, positive: bool)
    requires forall h | h in gs && (h.coeff > 0.0) == (g.coeff > 0.0) :: GroupLeq(g, h)
    ensures SignedTerms(InsertGroup(g, gs), positive) ==
            (if (g.coeff > 0.0) == positive then [TermOf(g)] else []) + SignedTerms(gs, positive)
  {
    if gs == [] || GroupLeq(g, gs[0]) {
      assert ([g] + gs)[1..] == gs;
    } else {
      assert gs[0] in gs;
      InsertSigned(g, gs[1..], positive);
      assert InsertGroup(g, gs)[1..] == InsertGroup(g, gs[1..]);
    }
  }

  function OfSign(ts: seq<Term>, positive: bool): seq<Term> {
    if ts == [] then []
    else (if (ts[0].coeff > 0.0) == positive then [ts[0]] else []) + OfSign(ts[1..], positive)
  }

  lemma {:induction false} SortKeepsSigns(m: Lib, atoms: set<Expr>, ts: seq<Term>, positive: bool)
    requires Arranged(m, atoms, ts)
    ensures SignedTerms(SortGroups(GroupsOf(m, ts)), positive) == OfSign(ts, positive)
    ensures forall g | g in SortGroups(GroupsOf(m, ts)) ::
              exists i :: 0 <= i < |ts| && g == Group(KeyOf(m, ts[i]), ts[i].coeff, ts[i])
  {
    if ts != [] {
      var t, rest := ts[0], SortGroups(GroupsOf(m, ts[1..]));
      var g := Group(KeyOf(m, t), t.coeff, t);
      assert t in ts;
      SortKeepsSigns(m, atoms, ts[1..], positive);
      forall h | h in rest
        ensures (h.coeff > 0.0) == (g.coeff > 0.0) ==> GroupLeq(g, h)
        ensures exists i :: 0 <= i < |ts| && h == Group(KeyOf(m, ts[i]), ts[i].coeff, ts[i])
      {
        var i :| 0 <= i < |ts[1..]| && h == Group(KeyOf(m, ts[1..][i]), ts[1..][i].coeff, ts[1..][i]);
        assert ts[1..][i] == ts[i + 1] && Precedes(m, ts[0], ts[i + 1]);
      }
      InsertSigned(g, rest, positive);
      InsertMembers(g, rest);
    }
  }

  lemma {:induction false} InsertMembers(g: Group, gs: seq<Group>)
    ensures forall h | h in InsertGroup(g, gs) :: h == g || h in gs
  {
    if gs != [] { InsertMembers(g, gs[1..]); }
  }

  lemma {:induction false} SignsInOrder(m: Lib, atoms: set<Expr>, ts: seq<Term>)
    requires Arranged(m, atoms, ts)
    ensures OfSign(ts, true) + OfSign(ts, false) == ts
    ensures ts != [] && ts[0].coeff <= 0.0 ==> OfSign(ts, true) == []
  {
    if ts != [] {
      SignsInOrder(m, atoms, ts[1..]);
      if |ts| > 1 { assert Precedes(m, ts[0], ts[1]); }
    }
  }

  /** Collecting the terms of a canonical sum changes nothing. */
  lemma ArrangeFixed(m: Lib, atoms: set<Expr>, ts: seq<Term>)
    requires Arranged(m, atoms, ts)
    ensures Arrange(m, ts) == ts
  {
    assert [] + ts == ts && GroupsOf(m, []) == [];
    forall i, j | 0 <= i < j < |ts| ensures KeyOf(m, ts[i]) != KeyOf(m, ts[j]) {
      assert Precedes(m, ts[i], ts[j]);
    }
    GroupedApart(m, [], ts);
    SortKeepsSigns(m, atoms, ts, true);
    SortKeepsSigns(m, atoms, ts, false);
    SignsInOrder(m, atoms, ts);
  }
}
