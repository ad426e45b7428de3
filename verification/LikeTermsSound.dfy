/** Collecting like terms and the Pythagorean rewrite preserve every value. */
module LikeTermsSound {
  import opened Wrappers
  import opened Expressions
  import opened RealFacts
  import opened Powers
  import opened ValueAlgebra
  import opened Simplification
  import opened SimplificationSound
  import opened LikeTerms

  // ----- what the keys have to achieve -----

  /** What is asked of two expressions that are merged because they have the same printed form. */
  type Relation = (Expr, Expr) -> bool

  /** The least that makes merging right at one assignment: equal values, or none. */
  function AgreeAt(m: Lib, env: Env): Relation {
    (a: Expr, b: Expr) => Strict(m, env, a) == Strict(m, env, b)
  }

  ghost predicate SameKeyRelated(m: Lib, rel: Relation, s: Term, t: Term) {
    KeyOf(m, s) == KeyOf(m, t) ==> rel(s.factor, t.factor)
  }

  /** Terms with one key are related. */
  ghost predicate TermsKeyed(m: Lib, rel: Relation, ts: seq<Term>) {
    forall s, t | s in ts && t in ts :: SameKeyRelated(m, rel, s, t)
  }

  /** Every list of terms that is grouped while `e` is collected is keyed. */
  ghost predicate CollectKeyed(m: Lib, rel: Relation, e: Expr) {
    match e
    case Add(a, b) =>
      && CollectKeyed(m, rel, a) && CollectKeyed(m, rel, b)
      && PairKeyed(m, rel, CollectLikeTerms(m, a), CollectLikeTerms(m, b))
    case Sub(a, b) =>
      && CollectKeyed(m, rel, a) && CollectKeyed(m, rel, b)
      && PairKeyed(m, rel, CollectLikeTerms(m, a), Neg(CollectLikeTerms(m, b)))
    case Mul(a, b) => CollectKeyed(m, rel, a) && CollectKeyed(m, rel, b)
    case Neg(a) => CollectKeyed(m, rel, a) && NegationKeyed(m, rel, CollectLikeTerms(m, a))
    case Div(a, b) => CollectKeyed(m, rel, a) && CollectKeyed(m, rel, b)
    case Pow(a, b) => CollectKeyed(m, rel, a) && CollectKeyed(m, rel, b)
    case Fn(_, a) => CollectKeyed(m, rel, a)
    case _ => true
  }

  ghost predicate PairKeyed(m: Lib, rel: Relation, a: Expr, b: Expr) {
    TermsKeyed(m, rel, ExtractTerms(a) + ExtractTerms(b))
  }

  ghost predicate NegationKeyed(m: Lib, rel: Relation, inner: Expr) {
    inner.Add? ==> PairKeyed(m, rel, Neg(inner.left), Neg(inner.right))
  }

  /** Squares that are paired have related arguments. */
  ghost predicate SquaresKeyed(m: Lib, rel: Relation, ts: seq<Expr>) {
    forall s, t | s in ts && t in ts && Completes(m, s, t) :: rel(s.base.arg, t.base.arg)
  }

  /** Every comparison of printed forms in the Pythagorean rewrite of `e` relates what it merges. */
  ghost predicate PythagorasKeyed(m: Lib, rel: Relation, e: Expr) {
    match e
    case Add(_, _) =>
      && SquaresKeyed(m, rel, FlattenSum(e))
      && var (ts, found) := PythagoreanScan(m, FlattenSum(e), 0); found ==> CollectKeyed(m, rel, RebuildSum(ts))
    case Sub(a, b) => PythagorasKeyed(m, rel, a) && PythagorasKeyed(m, rel, b)
    case Mul(a, b) => PythagorasKeyed(m, rel, a) && PythagorasKeyed(m, rel, b)
    case Div(a, b) => PythagorasKeyed(m, rel, a) && PythagorasKeyed(m, rel, b)
    case Pow(a, b) => PythagorasKeyed(m, rel, a) && PythagorasKeyed(m, rel, b)
    case Neg(a) => PythagorasKeyed(m, rel, a)
    case Fn(_, a) => PythagorasKeyed(m, rel, a)
    case _ => true
  }

  ghost predicate Stronger(rel: Relation, rel': Relation) {
    forall a: Expr, b: Expr | rel(a, b) :: rel'(a, b)
  }

  lemma {:induction false} CollectKeyedMonotone(m: Lib, rel: Relation, rel': Relation, e: Expr)
    requires Stronger(rel, rel') && CollectKeyed(m, rel, e)
    ensures CollectKeyed(m, rel', e)
  {
    match e
    case Add(a, b) =>
      CollectKeyedMonotone(m, rel, rel', a); CollectKeyedMonotone(m, rel, rel', b);
      PairKeyedMonotone(m, rel, rel', CollectLikeTerms(m, a), CollectLikeTerms(m, b));
    case Sub(a, b) =>
      CollectKeyedMonotone(m, rel, rel', a); CollectKeyedMonotone(m, rel, rel', b);
      PairKeyedMonotone(m, rel, rel', CollectLikeTerms(m, a), Neg(CollectLikeTerms(m, b)));
    case Mul(a, b) => CollectKeyedMonotone(m, rel, rel', a); CollectKeyedMonotone(m, rel, rel', b);
    case Div(a, b) => CollectKeyedMonotone(m, rel, rel', a); CollectKeyedMonotone(m, rel, rel', b);
    case Pow(a, b) => CollectKeyedMonotone(m, rel, rel', a); CollectKeyedMonotone(m, rel, rel', b);
    case Neg(a) =>
      CollectKeyedMonotone(m, rel, rel', a);
      var inner := CollectLikeTerms(m, a);
      if inner.Add? { PairKeyedMonotone(m, rel, rel', Neg(inner.left), Neg(inner.right)); }
    case Fn(_, a) => CollectKeyedMonotone(m, rel, rel', a);
    case _ =>
  }

  lemma PairKeyedMonotone(m: Lib, rel: Relation, rel': Relation, a: Expr, b: Expr)
    requires Stronger(rel, rel') && PairKeyed(m, rel, a, b)
    ensures PairKeyed(m, rel', a, b)
  {
    var ts := ExtractTerms(a) + ExtractTerms(b);
    forall s, t | s in ts && t in ts ensures SameKeyRelated(m, rel', s, t) {
      assert SameKeyRelated(m, rel, s, t);
    }
  }

  lemma {:induction false} PythagorasKeyedMonotone(m: Lib, rel: Relation, rel': Relation, e: Expr)
    requires Stronger(rel, rel') && PythagorasKeyed(m, rel, e)
    ensures PythagorasKeyed(m, rel', e)
  {
    match e
    case Add(_, _) =>
      var (ts, found) := PythagoreanScan(m, FlattenSum(e), 0);
      if found { CollectKeyedMonotone(m, rel, rel', RebuildSum(ts)); }
    case Sub(a, b) => PythagorasKeyedMonotone(m, rel, rel', a); PythagorasKeyedMonotone(m, rel, rel', b);
    case Mul(a, b) => PythagorasKeyedMonotone(m, rel, rel', a); PythagorasKeyedMonotone(m, rel, rel', b);
    case Div(a, b) => PythagorasKeyedMonotone(m, rel, rel', a); PythagorasKeyedMonotone(m, rel, rel', b);
    case Pow(a, b) => PythagorasKeyedMonotone(m, rel, rel', a); PythagorasKeyedMonotone(m, rel, rel', b);
    case Neg(a) => PythagorasKeyedMonotone(m, rel, rel', a);
    case Fn(_, a) => PythagorasKeyedMonotone(m, rel, rel', a);
    case _ =>
  }

  // ----- the value of a list of terms -----

  ghost function TermValue(m: Lib, env: Env, t: Term): Value {
    MulValues(Some(t.coeff), Strict(m, env, t.factor))
  }

  ghost function TermsValue(m: Lib, env: Env, ts: seq<Term>): Value {
    if ts == [] then Some(0.0) else AddValues(TermValue(m, env, ts[0]), TermsValue(m, env, ts[1..]))
  }

  lemma {:induction false} TermsValueAppend(m: Lib, env: Env, a: seq<Term>, b: seq<Term>)
    ensures TermsValue(m, env, a + b) == AddValues(TermsValue(m, env, a), TermsValue(m, env, b))
  {
    if a == [] {
      assert a + b == b;
    } else {
      assert (a + b)[0] == a[0] && (a + b)[1..] == a[1..] + b;
      TermsValueAppend(m, env, a[1..], b);
    }
  }

  lemma {:induction false} TermsValueNegated(m: Lib, env: Env, ts: seq<Term>)
    ensures TermsValue(m, env, Negated(ts)) == NegValue(TermsValue(m, env, ts))
  {
    if ts != [] {
      TermsValueNegated(m, env, ts[1..]);
      var f := Strict(m, env, ts[0].factor);
      if f.Some? { TimesNegates(ts[0].coeff, f.value); }
      assert Negated(ts)[0] == ts[0].(coeff := -ts[0].coeff);
      assert Negated(ts)[1..] == Negated(ts[1..]);
    }
  }

  /** The extracted terms add up to the expression, and are undefined where it is. */
  lemma {:induction false} ExtractTermsValue(m: Lib, env: Env, e: Expr)
    ensures TermsValue(m, env, ExtractTerms(e)) == Strict(m, env, e)
  {
    hide Times;
    match e
    case Add(a, b) =>
      ExtractTermsValue(m, env, a); ExtractTermsValue(m, env, b);
      TermsValueAppend(m, env, ExtractTerms(a), ExtractTerms(b));
    case Sub(a, b) =>
      ExtractTermsValue(m, env, a); ExtractTermsValue(m, env, b);
      TermsValueNegated(m, env, ExtractTerms(b));
      TermsValueAppend(m, env, ExtractTerms(a), Negated(ExtractTerms(b)));
    case Neg(a) =>
      ExtractTermsValue(m, env, a);
      TermsValueNegated(m, env, ExtractTerms(a));
    case Mul(a, b) =>
      MulCommutes(Strict(m, env, a), Strict(m, env, b));
      MulZeroOne(Strict(m, env, e));
      OneTermValue(m, env, ExtractTerms(e)[0]);
    case _ =>
      MulZeroOne(Strict(m, env, e));
      OneTermValue(m, env, ExtractTerms(e)[0]);
  }

  lemma OneTermValue(m: Lib, env: Env, t: Term)
    ensures TermsValue(m, env, [t]) == TermValue(m, env, t)
  {
    assert TermsValue(m, env, [t][1..]) == Some(0.0);
  }

  // ----- grouping -----

  ghost function GroupsValue(m: Lib, env: Env, gs: seq<Group>): Value {
    if gs == [] then Some(0.0)
    else AddValues(MulValues(Some(gs[0].coeff), Strict(m, env, gs[0].first.factor)), GroupsValue(m, env, gs[1..]))
  }

  ghost predicate WellFormedTerm(t: Term) {
    t.isConst ==> t.factor == Num(1.0)
  }

  ghost predicate WellFormedGroups(m: Lib, gs: seq<Group>) {
    forall i | 0 <= i < |gs| :: WellFormedTerm(gs[i].first) && gs[i].key == KeyOf(m, gs[i].first)
  }

  lemma {:induction false} ExtractTermsWellFormed(e: Expr)
    ensures forall i | 0 <= i < |ExtractTerms(e)| :: WellFormedTerm(ExtractTerms(e)[i])
  {
    match e
    case Add(a, b) => ExtractTermsWellFormed(a); ExtractTermsWellFormed(b);
    case Sub(a, b) => ExtractTermsWellFormed(a); ExtractTermsWellFormed(b); NegatedWellFormed(ExtractTerms(b));
    case Neg(a) => ExtractTermsWellFormed(a); NegatedWellFormed(ExtractTerms(a));
    case _ =>
  }

  lemma {:induction false} NegatedWellFormed(ts: seq<Term>)
    requires forall i | 0 <= i < |ts| :: WellFormedTerm(ts[i])
    ensures forall i | 0 <= i < |ts| :: WellFormedTerm(Negated(ts)[i])
  {
    if ts != [] { NegatedWellFormed(ts[1..]); }
  }

  ghost predicate DistinctKeys(gs: seq<Group>) {
    forall i, j | 0 <= i < j < |gs| :: gs[i].key != gs[j].key
  }

  /** The coefficients of the terms with one key, added up. */
  function CoefficientOf(m: Lib, ts: seq<Term>, key: string): real {
    if ts == [] then 0.0
    else (if KeyOf(m, ts[0]) == key then ts[0].coeff else 0.0) + CoefficientOf(m, ts[1..], key)
  }

  function GroupCoefficient(gs: seq<Group>, key: string): real {
    if gs == [] then 0.0
    else (if gs[0].key == key then gs[0].coeff else 0.0) + GroupCoefficient(gs[1..], key)
  }

  lemma {:induction false} AddToGroupsExact(m: Lib, gs: seq<Group>, t: Term, key: string)
    requires DistinctKeys(gs)
    ensures DistinctKeys(AddToGroups(m, gs, t))
    ensures GroupCoefficient(AddToGroups(m, gs, t), key)
         == GroupCoefficient(gs, key) + if KeyOf(m, t) == key then t.coeff else 0.0
  {
    AddToGroupsKeys(m, gs, t);
    AddToGroupsCoefficient(m, gs, t, key);
  }

  lemma {:induction false} AddToGroupsCoefficient(m: Lib, gs: seq<Group>, t: Term, key: string)
    ensures GroupCoefficient(AddToGroups(m, gs, t), key)
         == GroupCoefficient(gs, key) + if KeyOf(m, t) == key then t.coeff else 0.0
  {
    var r := AddToGroups(m, gs, t);
    hide KeyOf;
    if gs == [] {
    } else if gs[0].key == KeyOf(m, t) {
      assert r[1..] == gs[1..];
    } else {
      AddToGroupsCoefficient(m, gs[1..], t, key);
      assert r[1..] == AddToGroups(m, gs[1..], t);
    }
  }

  lemma {:induction false} AddToGroupsKeys(m: Lib, gs: seq<Group>, t: Term)
    requires DistinctKeys(gs)
    ensures DistinctKeys(AddToGroups(m, gs, t))
    ensures forall i | 0 <= i < |AddToGroups(m, gs, t)| ::
              AddToGroups(m, gs, t)[i].key == KeyOf(m, t) ||
              exists j | 0 <= j < |gs| :: gs[j].key == AddToGroups(m, gs, t)[i].key
  {
    hide KeyOf;
    var r := AddToGroups(m, gs, t);
    if gs == [] {
    } else if gs[0].key == KeyOf(m, t) {
      assert r[1..] == gs[1..];
    } else {
      var tail := AddToGroups(m, gs[1..], t);
      AddToGroupsKeys(m, gs[1..], t);
      assert r[1..] == tail;
      forall i | 0 <= i < |tail|
        ensures tail[i].key != gs[0].key
        ensures tail[i].key == KeyOf(m, t) || exists j | 0 <= j < |gs| :: gs[j].key == tail[i].key
      {
        if tail[i].key != KeyOf(m, t) {
          var j :| 0 <= j < |gs[1..]| && gs[1..][j].key == tail[i].key;
          assert gs[j + 1].key == tail[i].key;
        }
      }
    }
  }

  /** Grouping leaves one group per key, whose coefficient is the sum over all terms with that key. */
  lemma {:induction false} GroupTermsExact(m: Lib, gs: seq<Group>, ts: seq<Term>, key: string)
    requires DistinctKeys(gs)
    ensures DistinctKeys(GroupTerms(m, gs, ts))
    ensures GroupCoefficient(GroupTerms(m, gs, ts), key) == GroupCoefficient(gs, key) + CoefficientOf(m, ts, key)
    decreases |ts|
  {
    if ts != [] {
      AddToGroupsExact(m, gs, ts[0], key);
      GroupTermsExact(m, AddToGroups(m, gs, ts[0]), ts[1..], key);
    }
  }

  /** The first terms of the groups. */
  ghost function Firsts(gs: seq<Group>): (ts: seq<Term>)
    ensures |ts| == |gs|
    ensures forall i | 0 <= i < |gs| :: ts[i] == gs[i].first
  {
    if gs == [] then [] else [gs[0].first] + Firsts(gs[1..])
  }

  /** Grouping a term adds it to a group that is there or opens one with it. */
  lemma {:induction false} AddToGroupsFirsts(m: Lib, gs: seq<Group>, t: Term)
    requires WellFormedGroups(m, gs) && WellFormedTerm(t)
    ensures WellFormedGroups(m, AddToGroups(m, gs, t))
    ensures Firsts(AddToGroups(m, gs, t)) == Firsts(gs) || Firsts(AddToGroups(m, gs, t)) == Firsts(gs) + [t]
  {
    var r := AddToGroups(m, gs, t);
    if gs == [] {
      assert Firsts(r[1..]) == [];
    } else if gs[0].key == KeyOf(m, t) {
      assert r[1..] == gs[1..];
    } else {
      AddToGroupsFirsts(m, gs[1..], t);
      assert r[1..] == AddToGroups(m, gs[1..], t);
    }
  }

  /** Where the first group with the key of a term stands, or the number of groups. */
  function GroupIndex(gs: seq<Group>, key: string): (i: nat)
    ensures i <= |gs|
    ensures i < |gs| ==> gs[i].key == key
    ensures forall j | 0 <= j < i :: gs[j].key != key
  {
    if gs == [] || gs[0].key == key then 0 else 1 + GroupIndex(gs[1..], key)
  }

  /**
    The step at which printed keys can err. Adding a term to the group with its key keeps
    the value if and only if its coefficient is 0 or it agrees with the first of the group.
    */
  lemma {:induction false} AddToGroupExact(m: Lib, env: Env, gs: seq<Group>, t: Term)
    requires GroupIndex(gs, KeyOf(m, t)) < |gs|
    requires GroupsValue(m, env, gs).Some? && TermValue(m, env, t).Some?
    ensures GroupsValue(m, env, AddToGroups(m, gs, t)) == AddValues(GroupsValue(m, env, gs), TermValue(m, env, t)) <==>
            t.coeff == 0.0 || AgreeAt(m, env)(gs[GroupIndex(gs, KeyOf(m, t))].first.factor, t.factor)
  {
    if gs[0].key == KeyOf(m, t) {
      assert AddToGroups(m, gs, t)[1..] == gs[1..];
      MergedTermExact(Strict(m, env, gs[0].first.factor), Strict(m, env, t.factor), gs[0].coeff, t.coeff,
                      GroupsValue(m, env, gs[1..]));
    } else {
      AddToGroupExact(m, env, gs[1..], t);
      assert AddToGroups(m, gs, t)[1..] == AddToGroups(m, gs[1..], t);
    }
  }

  lemma MergedTermExact(g: Value, f: Value, k: real, c: real, rest: Value)
    requires g.Some? && f.Some? && rest.Some?
    ensures AddValues(MulValues(Some(k + c), g), rest) ==
            AddValues(AddValues(MulValues(Some(k), g), rest), MulValues(Some(c), f)) <==>
            c == 0.0 || g == f
  {
    TimesDistributes(k, c, g.value);
    SameProduct(c, f.value, g.value);
  }

  lemma SameProduct(c: real, x: real, y: real)
    ensures Times(c, x) == Times(c, y) <==> c == 0.0 || x == y
  {
    if c != 0.0 && Times(c, x) == Times(c, y) { Cancel(c, x, y); }
  }

  /** A term is related to the first of every group with its key. */
  ghost predicate FitsGroups(m: Lib, rel: Relation, gs: seq<Group>, t: Term) {
    forall i | 0 <= i < |gs| :: SameKeyRelated(m, rel, gs[i].first, t)
  }

  lemma {:induction false} AddToGroupsValue(m: Lib, env: Env, gs: seq<Group>, t: Term)
    requires WellFormedGroups(m, gs) && FitsGroups(m, AgreeAt(m, env), gs, t)
    ensures GroupsValue(m, env, AddToGroups(m, gs, t)) == AddValues(GroupsValue(m, env, gs), TermValue(m, env, t))
  {
    if gs == [] {
      assert GroupsValue(m, env, AddToGroups(m, gs, t)[1..]) == Some(0.0);
    } else if gs[0].key == KeyOf(m, t) {
      var f := Strict(m, env, t.factor);
      assert SameKeyRelated(m, AgreeAt(m, env), gs[0].first, t);
      if f.Some? { TimesDistributes(gs[0].coeff, t.coeff, f.value); }
      assert AddToGroups(m, gs, t)[1..] == gs[1..];
    } else {
      AddToGroupsValue(m, env, gs[1..], t);
      assert AddToGroups(m, gs, t)[1..] == AddToGroups(m, gs[1..], t);
    }
  }

  lemma KeyedTermFits(m: Lib, rel: Relation, gs: seq<Group>, t: Term, all: seq<Term>)
    requires TermsKeyed(m, rel, all) && t in all && forall s | s in Firsts(gs) :: s in all
    ensures FitsGroups(m, rel, gs, t)
  {
    forall i | 0 <= i < |gs| ensures SameKeyRelated(m, rel, gs[i].first, t) {
      assert Firsts(gs)[i] in all;
    }
  }

  /** Grouping keeps the value of the terms, when those that share a key agree. */
  lemma FirstTermAdded(m: Lib, env: Env, ts: seq<Term>)
    requires ts != []
    ensures TermsValue(m, env, ts) == AddValues(TermValue(m, env, ts[0]), TermsValue(m, env, ts[1..]))
  {
    hide TermValue, AddValues;
  }

  lemma {:induction false} GroupTermsValue(m: Lib, env: Env, gs: seq<Group>, ts: seq<Term>, all: seq<Term>)
    requires WellFormedGroups(m, gs) && forall i | 0 <= i < |ts| :: WellFormedTerm(ts[i])
    requires TermsKeyed(m, AgreeAt(m, env), all)
    requires (forall s | s in Firsts(gs) :: s in all) && forall s | s in ts :: s in all
    ensures GroupsValue(m, env, GroupTerms(m, gs, ts)) == AddValues(GroupsValue(m, env, gs), TermsValue(m, env, ts))
    decreases |ts|
  {
    hide Times, TermValue, GroupsValue, FitsGroups, KeyOf, AgreeAt, TermsKeyed, WellFormedGroups, WellFormedTerm;
    hide AddToGroups, Firsts;
    if ts == [] {
      assert TermsValue(m, env, ts) == Some(0.0);
    } else {
      hide TermsValue, AddValues;
      var next := AddToGroups(m, gs, ts[0]);
      NextGroups(m, gs, ts, all);
      KeyedTermFits(m, AgreeAt(m, env), gs, ts[0], all);
      AddToGroupsValue(m, env, gs, ts[0]);
      GroupTermsValue(m, env, next, ts[1..], all);
      FirstTermAdded(m, env, ts);
      AddedInTurn(GroupsValue(m, env, gs), TermValue(m, env, ts[0]), TermsValue(m, env, ts[1..]));
    }
  }

  lemma NextGroups(m: Lib, gs: seq<Group>, ts: seq<Term>, all: seq<Term>)
    requires WellFormedGroups(m, gs) && ts != [] && forall i | 0 <= i < |ts| :: WellFormedTerm(ts[i])
    requires (forall s | s in Firsts(gs) :: s in all) && forall s | s in ts :: s in all
    ensures var r := AddToGroups(m, gs, ts[0]);
            WellFormedGroups(m, r) && forall s | s in Firsts(r) :: s in all
    ensures ts[0] in all && (forall s | s in ts[1..] :: s in all)
    ensures forall i | 0 <= i < |ts[1..]| :: WellFormedTerm(ts[1..][i])
  {
    assert ts[0] in ts && forall s | s in ts[1..] :: s in ts;
    AddToGroupsFirsts(m, gs, ts[0]);
    hide WellFormedGroups, WellFormedTerm, AddToGroups, Firsts;
  }

  lemma AddedInTurn(a: Option<real>, b: Option<real>, c: Option<real>)
    ensures AddValues(AddValues(a, b), c) == AddValues(a, AddValues(b, c))
  {
  }

  lemma {:induction false} InsertGroupValue(m: Lib, env: Env, g: Group, gs: seq<Group>)
    ensures GroupsValue(m, env, InsertGroup(g, gs)) == GroupsValue(m, env, [g] + gs)
  {
    if gs != [] && !GroupLeq(g, gs[0]) {
      InsertGroupValue(m, env, g, gs[1..]);
      assert InsertGroup(g, gs)[1..] == InsertGroup(g, gs[1..]);
      assert ([g] + gs)[1..] == gs && ([g] + gs[1..])[1..] == gs[1..];
    }
  }

  /** Dropping the groups with coefficient 0 keeps the value wherever there is one. */
  lemma {:induction false} SortGroupsValue(m: Lib, env: Env, gs: seq<Group>)
    requires GroupsValue(m, env, gs).Some?
    ensures GroupsValue(m, env, SortGroups(gs)) == GroupsValue(m, env, gs)
  {
    if gs != [] {
      SortGroupsValue(m, env, gs[1..]);
      if gs[0].coeff == 0.0 {
        MulZeroOne(Strict(m, env, gs[0].first.factor));
      } else {
        InsertGroupValue(m, env, gs[0], SortGroups(gs[1..]));
        assert ([gs[0]] + SortGroups(gs[1..]))[1..] == SortGroups(gs[1..]);
      }
    }
  }

  // ----- rebuilding -----

  ghost function SignedValue(m: Lib, env: Env, gs: seq<Group>, positive: bool): Value {
    if gs == [] then Some(0.0)
    else if (gs[0].coeff > 0.0) == positive then
      AddValues(MulValues(Some(gs[0].coeff), Strict(m, env, gs[0].first.factor)),
                SignedValue(m, env, gs[1..], positive))
    else SignedValue(m, env, gs[1..], positive)
  }

  lemma {:induction false} SignsSplit(m: Lib, env: Env, gs: seq<Group>)
    ensures AddValues(SignedValue(m, env, gs, true), SignedValue(m, env, gs, false)) == GroupsValue(m, env, gs)
  {
    if gs != [] { SignsSplit(m, env, gs[1..]); }
  }

  lemma ScaledTermValue(m: Lib, env: Env, c: real, f: Expr)
    ensures Strict(m, env, ScaledTerm(c, f)) ==
            if c > 0.0 then MulValues(Some(c), Strict(m, env, f)) else NegValue(MulValues(Some(c), Strict(m, env, f)))
  {
    var v := Strict(m, env, f);
    MulZeroOne(v);
    if v.Some? { TimesNegates(c, v.value); }
  }

  lemma {:induction false} AddPositivesValue(m: Lib, env: Env, sum: Expr, gs: seq<Group>)
    ensures Strict(m, env, AddPositives(sum, gs)) == AddValues(Strict(m, env, sum), SignedValue(m, env, gs, true))
    decreases |gs|
  {
    if gs != [] {
      var t := ScaledTerm(gs[0].coeff, gs[0].first.factor);
      ScaledTermValue(m, env, gs[0].coeff, gs[0].first.factor);
      AddPositivesValue(m, env, if gs[0].coeff > 0.0 then Add(sum, t) else sum, gs[1..]);
    }
  }

  lemma {:induction false} SubtractNegativesValue(m: Lib, env: Env, sum: Expr, gs: seq<Group>)
    ensures Strict(m, env, SubtractNegatives(sum, gs)) == AddValues(Strict(m, env, sum), SignedValue(m, env, gs, false))
    decreases |gs|
  {
    if gs != [] {
      var t := ScaledTerm(gs[0].coeff, gs[0].first.factor);
      ScaledTermValue(m, env, gs[0].coeff, gs[0].first.factor);
      SubtractNegativesValue(m, env, if gs[0].coeff > 0.0 then sum else Sub(sum, t), gs[1..]);
    }
  }

  lemma NothingGrouped(m: Lib, env: Env)
    ensures WellFormedGroups(m, []) && Firsts([]) == [] && GroupsValue(m, env, []) == Some(0.0)
  {
  }

  lemma AddedToNothing(a: Option<real>)
    ensures AddValues(Some(0.0), a) == a
  {
  }

  /** The groups of a sum have the value of the sum. */
  lemma CollectedGroupsValue(m: Lib, env: Env, a: Expr, b: Expr)
    requires TermsKeyed(m, AgreeAt(m, env), ExtractTerms(a) + ExtractTerms(b))
    ensures GroupsValue(m, env, GroupTerms(m, [], ExtractTerms(a) + ExtractTerms(b))) ==
            AddValues(Strict(m, env, a), Strict(m, env, b))
  {
    var ts := ExtractTerms(a) + ExtractTerms(b);
    NothingGrouped(m, env);
    ExtractTermsWellFormed(a);
    ExtractTermsWellFormed(b);
    hide *;
    ExtractTermsValue(m, env, a);
    ExtractTermsValue(m, env, b);
    TermsValueAppend(m, env, ExtractTerms(a), ExtractTerms(b));
    GroupTermsValue(m, env, [], ts, ts);
    AddedToNothing(TermsValue(m, env, ts));
  }

  /** The sum rebuilt from groups has the value of the groups. */
  lemma RebuiltGroupsValue(m: Lib, env: Env, gs: seq<Group>)
    ensures Strict(m, env, SubtractNegatives(AddPositives(Num(0.0), gs), gs)) == GroupsValue(m, env, gs)
  {
    AddPositivesValue(m, env, Num(0.0), gs);
    SubtractNegativesValue(m, env, AddPositives(Num(0.0), gs), gs);
    SignsSplit(m, env, gs);
  }

  /** A sum keeps its value when the terms that share a key agree. */
  lemma CollectAddPairRefines(m: Lib, env: Env, a: Expr, b: Expr)
    requires Lawful(m) && PairKeyed(m, AgreeAt(m, env), a, b)
    ensures Refines(m, env, Add(a, b), CollectAddPair(m, a, b))
  {
    var all := GroupTerms(m, [], ExtractTerms(a) + ExtractTerms(b));
    CollectedGroupsValue(m, env, a, b);
    if GroupsValue(m, env, all).Some? {
      var gs := SortGroups(all);
      SortGroupsValue(m, env, all);
      RebuiltGroupsValue(m, env, gs);
      SimplifyRefines(m, env, SubtractNegatives(AddPositives(Num(0.0), gs), gs));
    }
  }

  lemma {:induction false} CollectKeepsLiterals(m: Lib, e: Expr)
    ensures e.Num? ==> CollectLikeTerms(m, e) == e
  {
  }

  lemma CollectNegationRefines(m: Lib, env: Env, inner: Expr)
    requires Lawful(m) && NegationKeyed(m, AgreeAt(m, env), inner)
    ensures Refines(m, env, Neg(inner), CollectNegation(m, inner))
  {
    hide CollectAddPair;
    if inner.Add? {
      var a, b := Neg(inner.left), Neg(inner.right);
      CollectAddPairRefines(m, env, a, b);
      assert Strict(m, env, Neg(inner)) == AddValues(Strict(m, env, a), Strict(m, env, b));
    }
  }

  /** Wherever an expression has a value, collecting its like terms keeps it, when merged terms agree. */
  lemma {:induction false} CollectLikeTermsRefines(m: Lib, env: Env, e: Expr)
    requires Lawful(m) && CollectKeyed(m, AgreeAt(m, env), e)
    ensures Refines(m, env, e, CollectLikeTerms(m, e))
  {
    hide CollectAddPair, CollectNegation, TermsKeyed, AgreeAt, Lawful;
    match e
    case Add(a, b) =>
      CollectLikeTermsRefines(m, env, a); CollectLikeTermsRefines(m, env, b);
      var a', b' := CollectLikeTerms(m, a), CollectLikeTerms(m, b);
      Congruence(m, env, a, b, a', b');
      CollectAddPairRefines(m, env, a', b');
    case Sub(a, b) =>
      CollectLikeTermsRefines(m, env, a); CollectLikeTermsRefines(m, env, b);
      var a', b' := CollectLikeTerms(m, a), CollectLikeTerms(m, b);
      Congruence(m, env, a, b, a', b');
      assert Strict(m, env, Sub(a', b')) == Strict(m, env, Add(a', Neg(b')));
      CollectAddPairRefines(m, env, a', Neg(b'));
    case Mul(a, b) =>
      CollectLikeTermsRefines(m, env, a); CollectLikeTermsRefines(m, env, b);
      Congruence(m, env, a, b, CollectLikeTerms(m, a), CollectLikeTerms(m, b));
    case Div(a, b) =>
      CollectLikeTermsRefines(m, env, a); CollectLikeTermsRefines(m, env, b);
      Congruence(m, env, a, b, CollectLikeTerms(m, a), CollectLikeTerms(m, b));
    case Pow(a, b) =>
      CollectLikeTermsRefines(m, env, a); CollectLikeTermsRefines(m, env, b);
      CollectKeepsLiterals(m, b);
      Congruence(m, env, a, b, CollectLikeTerms(m, a), CollectLikeTerms(m, b));
    case Neg(a) =>
      CollectLikeTermsRefines(m, env, a);
      UnaryCongruence(m, env, Abs, a, CollectLikeTerms(m, a));
      CollectNegationRefines(m, env, CollectLikeTerms(m, a));
    case Fn(f, a) =>
      CollectLikeTermsRefines(m, env, a);
      UnaryCongruence(m, env, f, a, CollectLikeTerms(m, a));
    case _ =>
  }

  // ----- the Pythagorean rewrite -----

  ghost function SumValue(m: Lib, env: Env, ts: seq<Expr>): Value {
    if ts == [] then Some(0.0) else AddValues(Strict(m, env, ts[0]), SumValue(m, env, ts[1..]))
  }

  lemma {:induction false} SumValueAppend(m: Lib, env: Env, a: seq<Expr>, b: seq<Expr>)
    ensures SumValue(m, env, a + b) == AddValues(SumValue(m, env, a), SumValue(m, env, b))
  {
    if a == [] {
      assert a + b == b;
    } else {
      assert (a + b)[0] == a[0] && (a + b)[1..] == a[1..] + b;
      SumValueAppend(m, env, a[1..], b);
    }
  }

  lemma SumValueOne(m: Lib, env: Env, e: Expr)
    ensures SumValue(m, env, [e]) == Strict(m, env, e)
  {
    assert SumValue(m, env, [e][1..]) == Some(0.0);
  }

  lemma {:induction false} FlattenSumValue(m: Lib, env: Env, e: Expr)
    ensures SumValue(m, env, FlattenSum(e)) == Strict(m, env, e)
  {
    match e
    case Add(a, b) =>
      FlattenSumValue(m, env, a); FlattenSumValue(m, env, b);
      SumValueAppend(m, env, FlattenSum(a), FlattenSum(b));
    case Sub(a, b) =>
      FlattenSumValue(m, env, a);
      SumValueAppend(m, env, FlattenSum(a), [Neg(b)]);
      SumValueOne(m, env, Neg(b));
    case _ => SumValueOne(m, env, e);
  }

  lemma {:induction false} RebuildSumValue(m: Lib, env: Env, ts: seq<Expr>)
    requires ts != []
    ensures Strict(m, env, RebuildSum(ts)) == SumValue(m, env, ts)
  {
    var last := |ts| - 1;
    SumValueOne(m, env, ts[last]);
    if last == 0 {
      assert ts == [ts[0]];
    } else {
      RebuildSumValue(m, env, ts[..last]);
      assert ts == ts[..last] + [ts[last]];
      SumValueAppend(m, env, ts[..last], [ts[last]]);
    }
  }

  /** A square and its partner add up to 1. */
  lemma SquaresAddToOne(m: Lib, env: Env, s: Expr, t: Expr)
    requires Lawful(m) && Completes(m, s, t) && AgreeAt(m, env)(s.base.arg, t.base.arg)
    requires Strict(m, env, s).Some? && Strict(m, env, t).Some?
    ensures AddValues(Strict(m, env, s), Strict(m, env, t)) == Some(1.0)
  {
    var x := Strict(m, env, s.base.arg);
    SquareValue(m, env, s);
    SquareValue(m, env, t);
    assert Pythagoras(m, x.value);
  }

  lemma SquareValue(m: Lib, env: Env, s: Expr)
    requires IsSquareOf(s, Sin) || IsSquareOf(s, Cos)
    requires Strict(m, env, s).Some?
    ensures var x := Strict(m, env, s.base.arg);
            x.Some? && var y := m.fn(s.base.f, x.value); Strict(m, env, s) == Some(Times(y, y))
  {
    assert Strict(m, env, s.exponent) == Some(2.0);
    var b := Strict(m, env, s.base);
    PowfSmall(m, b.value, 2.0);
  }

  /** Taking out the partner of a square and putting 1 for the square keeps the sum. */
  lemma PairStepValue(m: Lib, env: Env, ts: seq<Expr>, i: nat, j: nat)
    requires Lawful(m) && i < j < |ts| && Completes(m, ts[i], ts[j])
    requires AgreeAt(m, env)(ts[i].base.arg, ts[j].base.arg)
    requires SumValue(m, env, ts).Some?
    ensures SumValue(m, env, Paired(ts, i, j)) == SumValue(m, env, ts)
  {
    var rest, k := ts[i + 1..], j - (i + 1);
    SplitAtPair(m, env, ts, i, j);
    SquaresAddToOne(m, env, ts[i], ts[j]);
    OneForTwo(SumValue(m, env, ts[..i]), Strict(m, env, ts[i]), SumValue(m, env, rest[..k]),
              Strict(m, env, ts[j]), SumValue(m, env, rest[k + 1..]));
  }

  /** The sums before and after, split at the square and its partner. */
  lemma PairedParts(ts: seq<Expr>, i: nat, j: nat)
    requires i < j < |ts|
    ensures var out, rest, k := Paired(ts, i, j), ts[i + 1..], j - (i + 1);
            out[..i] == ts[..i] && out[i] == Num(1.0) && out[i + 1..] == rest[..k] + rest[k + 1..]
  {
    var out, rest, k := Paired(ts, i, j), ts[i + 1..], j - (i + 1);
    assert rest[..k] == ts[i + 1..j] && rest[k + 1..] == ts[j + 1..];
    assert out == ts[..i] + ([Num(1.0)] + (rest[..k] + rest[k + 1..]));
  }

  lemma SplitAtPair(m: Lib, env: Env, ts: seq<Expr>, i: nat, j: nat)
    requires i < j < |ts|
    ensures var rest, k := ts[i + 1..], j - (i + 1);
            var a, b, c := SumValue(m, env, ts[..i]), SumValue(m, env, rest[..k]), SumValue(m, env, rest[k + 1..]);
            && SumValue(m, env, ts) ==
               AddValues(a, AddValues(Strict(m, env, ts[i]), AddValues(b, AddValues(Strict(m, env, ts[j]), c))))
            && SumValue(m, env, Paired(ts, i, j)) == AddValues(a, AddValues(Some(1.0), AddValues(b, c)))
  {
    hide SumValue, AddValues;
    var out, rest, k := Paired(ts, i, j), ts[i + 1..], j - (i + 1);
    SumValueSplit(m, env, ts, i);
    SumValueSplit(m, env, rest, k);
    assert rest[k] == ts[j];
    SumValueSplit(m, env, out, i);
    PairedParts(ts, i, j);
    SumValueAppend(m, env, rest[..k], rest[k + 1..]);
    LiteralOne(m, env);
  }

  lemma LiteralOne(m: Lib, env: Env)
    ensures Strict(m, env, Num(1.0)) == Some(1.0)
  {
  }

  lemma OneForTwo(a: Value, s: Value, b: Value, t: Value, c: Value)
    requires AddValues(a, AddValues(s, AddValues(b, AddValues(t, c)))).Some? && s.value + t.value == 1.0
    ensures AddValues(a, AddValues(Some(1.0), AddValues(b, c))) ==
            AddValues(a, AddValues(s, AddValues(b, AddValues(t, c))))
  {
  }

  lemma SumValueSplit(m: Lib, env: Env, ts: seq<Expr>, i: nat)
    requires i < |ts|
    ensures SumValue(m, env, ts) ==
            AddValues(SumValue(m, env, ts[..i]), AddValues(Strict(m, env, ts[i]), SumValue(m, env, ts[i + 1..])))
  {
    assert ts == ts[..i] + ts[i..];
    SumValueAppend(m, env, ts[..i], ts[i..]);
    assert ts[i..][0] == ts[i] && ts[i..][1..] == ts[i + 1..];
  }

  lemma SquaresStayKeyed(m: Lib, rel: Relation, ts: seq<Expr>, i: nat, j: nat)
    requires SquaresKeyed(m, rel, ts) && i < j < |ts|
    ensures SquaresKeyed(m, rel, Paired(ts, i, j))
  {
    var out := Paired(ts, i, j);
    forall s, t | s in out && t in out && Completes(m, s, t) ensures rel(s.base.arg, t.base.arg) {
      assert s in ts && t in ts;
    }
  }

  lemma {:induction false} PythagoreanScanValue(m: Lib, env: Env, ts: seq<Expr>, i: nat)
    requires Lawful(m) && SquaresKeyed(m, AgreeAt(m, env), ts) && i <= |ts|
    requires SumValue(m, env, ts).Some?
    ensures SumValue(m, env, PythagoreanScan(m, ts, i).0) == SumValue(m, env, ts)
    decreases |ts| - i
  {
    if i < |ts| {
      var j := FindPartner(m, ts, ts[i], i + 1);
      if j < |ts| {
        PairStepValue(m, env, ts, i, j);
        SquaresStayKeyed(m, AgreeAt(m, env), ts, i, j);
        PythagoreanScanValue(m, env, Paired(ts, i, j), i + 1);
      } else {
        PythagoreanScanValue(m, env, ts, i + 1);
      }
    }
  }

  /** No square among the first k terms has a partner after it. */
  ghost predicate PairedUpTo(m: Lib, ts: seq<Expr>, k: nat) {
    forall i, j | 0 <= i < j < |ts| && i < k :: !Completes(m, ts[i], ts[j])
  }

  /** The scan leaves no square of sin or cos with a partner after it, and reports whether it found one. */
  lemma {:induction false} NoPairLeft(m: Lib, ts: seq<Expr>, i: nat)
    requires i <= |ts| && PairedUpTo(m, ts, i)
    ensures var (r, found) := PythagoreanScan(m, ts, i);
            PairedUpTo(m, r, |r|) && |r| <= |ts| && (found <==> r != ts) && (found <==> |r| < |ts|)
    decreases |ts| - i
  {
    if i < |ts| {
      var j := FindPartner(m, ts, ts[i], i + 1);
      if j < |ts| {
        var out := Paired(ts, i, j);
        forall k, l | 0 <= k < l < |out| && k < i + 1 ensures !Completes(m, out[k], out[l]) {
          if k < i {
            assert out[k] == ts[k];
            assert out[l] == Num(1.0) || (exists n :: k < n < |ts| && out[l] == ts[n]) by {
              if l < i { assert out[l] == ts[l]; } else if i < l < j { assert out[l] == ts[l]; }
              else if l >= j { assert out[l] == ts[l + 1]; }
            }
          }
        }
        NoPairLeft(m, out, i + 1);
      } else {
        NoPairLeft(m, ts, i + 1);
      }
    }
  }

  /** The Pythagorean rewrite keeps every value, when the arguments it pairs agree. */
  lemma {:induction false} ApplyPythagorasRefines(m: Lib, env: Env, e: Expr)
    requires Lawful(m) && PythagorasKeyed(m, AgreeAt(m, env), e)
    ensures Refines(m, env, e, ApplyPythagoras(m, e))
    ensures e.Num? ==> ApplyPythagoras(m, e) == e
  {
    match e
    case Add(_, _) => PythagorasOnSum(m, env, e);
    case Sub(a, b) =>
      ApplyPythagorasRefines(m, env, a); ApplyPythagorasRefines(m, env, b);
      Congruence(m, env, a, b, ApplyPythagoras(m, a), ApplyPythagoras(m, b));
    case Mul(a, b) =>
      ApplyPythagorasRefines(m, env, a); ApplyPythagorasRefines(m, env, b);
      Congruence(m, env, a, b, ApplyPythagoras(m, a), ApplyPythagoras(m, b));
    case Div(a, b) =>
      ApplyPythagorasRefines(m, env, a); ApplyPythagorasRefines(m, env, b);
      Congruence(m, env, a, b, ApplyPythagoras(m, a), ApplyPythagoras(m, b));
    case Pow(a, b) =>
      ApplyPythagorasRefines(m, env, a); ApplyPythagorasRefines(m, env, b);
      Congruence(m, env, a, b, ApplyPythagoras(m, a), ApplyPythagoras(m, b));
    case Neg(a) =>
      ApplyPythagorasRefines(m, env, a);
      UnaryCongruence(m, env, Abs, a, ApplyPythagoras(m, a));
    case Fn(f, a) =>
      ApplyPythagorasRefines(m, env, a);
      UnaryCongruence(m, env, f, a, ApplyPythagoras(m, a));
    case _ =>
  }

  lemma PythagorasOnSum(m: Lib, env: Env, e: Expr)
    requires Lawful(m) && PythagorasKeyed(m, AgreeAt(m, env), e) && e.Add?
    ensures Refines(m, env, e, ApplyPythagoras(m, e))
  {
    if Strict(m, env, e).Some? {
      FlattenSumValue(m, env, e);
      PythagoreanScanValue(m, env, FlattenSum(e), 0);
      var ts := PythagoreanScan(m, FlattenSum(e), 0).0;
      RebuildSumValue(m, env, ts);
      if PythagoreanScan(m, FlattenSum(e), 0).1 {
        CollectLikeTermsRefines(m, env, RebuildSum(ts));
        SimplifyRefines(m, env, CollectLikeTerms(m, RebuildSum(ts)));
      }
    }
  }
}
