/** The program's own keys, printed forms: where grouping by them is right, and what it decides. */
module PrintedKeys {
  import opened Wrappers
  import opened Expressions
  import opened RealFacts
  import opened ValueAlgebra
  import opened Printing
  import opened RoundTrip
  import opened RoundTripValues
  import opened Simplification
  import opened Rewriting
  import opened RewritingSound
  import opened LikeTerms
  import opened LikeTermsSound
  import opened Equivalence
  import opened LinearSums
  import opened LinearEquivalence

  /** The library as the program has it: the key of a term is its printed form. */
  ghost predicate UsesPrintedKeys(m: Lib) {
    forall e: Expr :: m.show(e) == Print(e)
  }

  // ----- a test on the merged terms -----

  /** Trees whose printed form determines their value. */
  predicate PrintsPlainly(e: Expr) {
    Printable(e) && Unambiguous(e) && FixedExponents(e)
  }

  /** The test: the merged expressions are the same, or both print plainly, and alike. */
  function PlainKeys(): Relation {
    (a: Expr, b: Expr) => a == b || (Print(a) == Print(b) && PrintsPlainly(a) && PrintsPlainly(b))
  }

  lemma PlainKeysAgree(m: Lib, env: Env)
    ensures Stronger(PlainKeys(), AgreeAt(m, env))
  {
    forall a: Expr, b: Expr | PlainKeys()(a, b) ensures AgreeAt(m, env)(a, b) {
      if a != b {
        PrintedKeysAgree(m, env, a, b);
        FixedExponentsAgree(m, env, a);
        FixedExponentsAgree(m, env, b);
      }
    }
  }

  ghost predicate StrictlyAgree(m: Lib, a: Expr, b: Expr) {
    forall env: Env | Strict(m, env, a).Some? && Strict(m, env, b).Some? :: Strict(m, env, a) == Strict(m, env, b)
  }

  /** When every merge of a run passes the test, the answer is right at every assignment. */
  lemma PlainRunsSound(m: Lib, a: Expr, b: Expr)
    requires Lawful(m) && EquivalentKeyed(m, PlainKeys(), a, b) && Equivalent(m, a, b)
    ensures StrictlyAgree(m, a, b)
  {
    forall env: Env ensures Stronger(PlainKeys(), AgreeAt(m, env)) {
      PlainKeysAgree(m, env);
    }
    EquivalentSoundEverywhere(m, PlainKeys(), a, b);
  }

  // ----- linear sums -----

  /** Names of variables: not the named constants, and not read as a number. */
  predicate AreVariables(names: set<string>) {
    "pi" !in names && "e" !in names && "1" !in names
  }

  function Variables(names: set<string>): set<Expr> {
    set v | v in names :: Var(v)
  }

  lemma VariablesInert(m: Lib, names: set<string>)
    requires UsesPrintedKeys(m) && AreVariables(names)
    ensures AllInert(m, Variables(names))
  {
    forall a | a in Variables(names) ensures Inert(m, a) {
      assert m.show(a) == Print(a) == a.name;
    }
  }

  lemma VariablesKeyed(m: Lib, rel: Relation, names: set<string>)
    requires UsesPrintedKeys(m) && forall e: Expr :: rel(e, e)
    ensures KeyedThroughout(m, rel, Variables(names))
  {
    forall a, b | a in Variables(names) && b in Variables(names) && m.show(a) == m.show(b) ensures rel(a, b) {
      assert m.show(a) == Print(a) == a.name && m.show(b) == Print(b) == b.name;
    }
  }

  /** The value of a linear sum where one variable is 1 and the others are 0. */
  function UnitAssignment(names: set<string>, name: string): Env {
    map v | v in names :: if v == name then 1.0 else 0.0
  }

  /** What the terms contribute there: the constants, and the terms of that variable. */
  function UnitCoefficient(m: Lib, ts: seq<Term>, name: string): real {
    CoefficientOf(m, ts, "1") + if name == "1" then 0.0 else CoefficientOf(m, ts, name)
  }

  function OwnCoefficient(m: Lib, t: Term, name: string): real {
    if t.isConst || (name != "1" && KeyOf(m, t) == name) then t.coeff else 0.0
  }

  lemma {:induction false} UnitTermsValue(m: Lib, names: set<string>, ts: seq<Term>, name: string)
    requires UsesPrintedKeys(m) && AreVariables(names)
    requires forall t | t in ts :: IsTermOver(Variables(names), t)
    ensures TermsValue(m, UnitAssignment(names, name), ts) == Some(UnitCoefficient(m, ts, name))
  {
    if ts == [] {
      assert UnitCoefficient(m, ts, name) == 0.0;
    } else {
      assert ts[0] in ts && forall t | t in ts[1..] :: t in ts;
      hide UnitCoefficient, OwnCoefficient, TermValue, TermsValue, IsTermOver, UsesPrintedKeys, AreVariables;
      hide UnitAssignment, Variables, KeyOf;
      UnitTermsValue(m, names, ts[1..], name);
      UnitTermValue(m, names, ts[0], name);
      UnitCoefficientStep(m, ts, name);
      FirstTermAdded(m, UnitAssignment(names, name), ts);
    }
  }

  lemma UnitCoefficientStep(m: Lib, ts: seq<Term>, name: string)
    requires ts != [] && (ts[0].isConst <==> KeyOf(m, ts[0]) == "1")
    ensures UnitCoefficient(m, ts, name) == OwnCoefficient(m, ts[0], name) + UnitCoefficient(m, ts[1..], name)
  {
    hide KeyOf;
    assert CoefficientOf(m, ts, "1") ==
           (if KeyOf(m, ts[0]) == "1" then ts[0].coeff else 0.0) + CoefficientOf(m, ts[1..], "1");
  }

  lemma UnitTermValue(m: Lib, names: set<string>, t: Term, name: string)
    requires UsesPrintedKeys(m) && AreVariables(names) && IsTermOver(Variables(names), t)
    ensures TermValue(m, UnitAssignment(names, name), t) == Some(OwnCoefficient(m, t, name))
    ensures t.isConst <==> KeyOf(m, t) == "1"
  {
    assert Times(t.coeff, 1.0) == t.coeff && Times(t.coeff, 0.0) == 0.0;
    if !t.isConst {
      assert m.show(t.factor) == Print(t.factor) == t.factor.name;
    }
  }

  lemma UnitValue(m: Lib, names: set<string>, e: Expr, name: string)
    requires UsesPrintedKeys(m) && AreVariables(names) && Linear(Variables(names), e)
    ensures Strict(m, UnitAssignment(names, name), e) ==
            Some(Coefficient(m, e, "1") + if name == "1" then 0.0 else Coefficient(m, e, name))
  {
    hide Times, Strict, CoefficientOf, TermsValue;
    VariablesInert(m, names);
    TermsOfLinear(m, Variables(names), e);
    UnitTermsValue(m, names, ExtractTerms(e), name);
    ExtractTermsValue(m, UnitAssignment(names, name), e);
  }

  ghost predicate AgreeEverywhere(m: Lib, a: Expr, b: Expr) {
    forall env: Env | Evaluate(m, env, a).Some? && Evaluate(m, env, b).Some? ::
      Evaluate(m, env, a) == Evaluate(m, env, b)
  }

  lemma {:induction false} LinearIsFixed(names: set<string>, e: Expr)
    requires Linear(Variables(names), e)
    ensures FixedExponents(e)
  {
    match e
    case Add(a, b) => LinearIsFixed(names, a); LinearIsFixed(names, b);
    case Sub(a, b) => LinearIsFixed(names, a); LinearIsFixed(names, b);
    case Neg(a) => LinearIsFixed(names, a);
    case _ =>
  }

  /** Linear sums with one value at every assignment have the same coefficients. */
  lemma AgreementFixesCoefficients(m: Lib, names: set<string>, a: Expr, b: Expr)
    requires UsesPrintedKeys(m) && AreVariables(names)
    requires Linear(Variables(names), a) && Linear(Variables(names), b) && AgreeEverywhere(m, a, b)
    ensures SameCoefficients(m, a, b)
  {
    LinearIsFixed(names, a);
    LinearIsFixed(names, b);
    forall key: string ensures Coefficient(m, a, key) == Coefficient(m, b, key) {
      UnitValue(m, names, a, "1"); UnitValue(m, names, b, "1");
      UnitValue(m, names, a, key); UnitValue(m, names, b, key);
      FixedExponentsAgree(m, UnitAssignment(names, "1"), a); FixedExponentsAgree(m, UnitAssignment(names, "1"), b);
      FixedExponentsAgree(m, UnitAssignment(names, key), a); FixedExponentsAgree(m, UnitAssignment(names, key), b);
    }
  }

  /**
    With its own keys the program decides linear sums: it terminates on them, and reports
    two of them equivalent if and only if they have the same value at every assignment.
    */
  lemma LinearSumsDecided(m: Lib, names: set<string>, a: Expr, b: Expr)
    requires Lawful(m) && UsesPrintedKeys(m) && AreVariables(names)
    requires Linear(Variables(names), a) && Linear(Variables(names), b)
    ensures CanonicalizesTo(m, a, Round(m, a)) && CanonicalizesTo(m, b, Round(m, b))
    ensures Equivalent(m, a, b) <==> AgreeEverywhere(m, a, b)
  {
    var atoms := Variables(names);
    VariablesInert(m, names);
    LinearCanonicalizes(m, atoms, a);
    LinearCanonicalizes(m, atoms, b);
    EquivalentExact(m, atoms, a, b);
    if AgreeEverywhere(m, a, b) { AgreementFixesCoefficients(m, names, a, b); }
    if Equivalent(m, a, b) { LinearSumsSound(m, names, a, b); }
  }

  lemma LinearSumsSound(m: Lib, names: set<string>, a: Expr, b: Expr)
    requires Lawful(m) && UsesPrintedKeys(m) && AreVariables(names) && Equivalent(m, a, b)
    requires Linear(Variables(names), a) && Linear(Variables(names), b)
    ensures AgreeEverywhere(m, a, b)
  {
    VariablesInert(m, names);
    VariablesKeyed(m, PlainKeys(), names);
    LinearEquivalentKeyed(m, PlainKeys(), Variables(names), a, b);
    PlainRunsSound(m, a, b);
    LinearIsFixed(names, a);
    LinearIsFixed(names, b);
    StrictAgreement(m, a, b);
  }

  lemma StrictAgreement(m: Lib, a: Expr, b: Expr)
    requires FixedExponents(a) && FixedExponents(b) && StrictlyAgree(m, a, b)
    ensures AgreeEverywhere(m, a, b)
  {
    forall env: Env | Evaluate(m, env, a).Some? && Evaluate(m, env, b).Some?
      ensures Evaluate(m, env, a) == Evaluate(m, env, b)
    {
      FixedExponentsAgree(m, env, a);
      FixedExponentsAgree(m, env, b);
    }
  }

  // ----- variables divided by literals -----

  lemma AsLinearValue(m: Lib, env: Env, atoms: set<Expr>, e: Expr)
    ensures Evaluate(m, env, AsLinear(atoms, e)) == Evaluate(m, env, e)
  {
    if IsQuotient(atoms, e) {
      var a, k := e.left, e.right.n;
      assert Evaluate(m, env, Num(k)) == Some(k) && Evaluate(m, env, Num(1.0 / k)) == Some(1.0 / k);
      DivByLiteral(Evaluate(m, env, a), None, k);
    }
  }

  lemma AsLinearIsLinear(atoms: set<Expr>, e: Expr)
    requires IsLinearOrQuotient(atoms, e)
    ensures Linear(atoms, AsLinear(atoms, e))
  {
  }

  /** The same for variables divided by literals: they are reported equal exactly to what they are everywhere. */
  lemma QuotientsDecided(m: Lib, names: set<string>, a: Expr, b: Expr)
    requires Lawful(m) && UsesPrintedKeys(m) && AreVariables(names)
    requires IsLinearOrQuotient(Variables(names), a) && IsLinearOrQuotient(Variables(names), b)
    ensures CanonicalizesTo(m, a, Round(m, a)) && CanonicalizesTo(m, b, Round(m, b))
    ensures Equivalent(m, a, b) <==> AgreeEverywhere(m, a, b)
  {
    var atoms := Variables(names);
    var la, lb := AsLinear(atoms, a), AsLinear(atoms, b);
    hide Equivalent, CanonicalizesTo, SameCoefficients, AllInert, UsesPrintedKeys, Evaluate;
    VariablesInert(m, names);
    AsLinearIsLinear(atoms, a);
    AsLinearIsLinear(atoms, b);
    QuotientCanonicalizes(m, atoms, a);
    QuotientCanonicalizes(m, atoms, b);
    QuotientEquivalentExact(m, atoms, a, b);
    EquivalentExact(m, atoms, la, lb);
    LinearSumsDecided(m, names, la, lb);
    forall env: Env
      ensures Evaluate(m, env, la) == Evaluate(m, env, a) && Evaluate(m, env, lb) == Evaluate(m, env, b)
    {
      AsLinearValue(m, env, atoms, a);
      AsLinearValue(m, env, atoms, b);
    }
  }
}
