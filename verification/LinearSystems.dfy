/** `solve_system_str` from the parsed equations on: extraction of a linear system and its solution. */
module LinearSystems {
  import opened Wrappers
  import opened Expressions
  import opened RealFacts
  import opened Ordering
  import opened Simplification
  import opened SimplificationSound
  import opened LinearSolver
  import Powers

  // ----- variables -----

  /** The functions that `collect_vars` looks into. */
  predicate IsSearched(f: Func) {
    f in {Sin, Cos, Tan, Exp, Ln, Sqrt, Abs}
  }

  /** `collect_vars`, as a set: quotients and some functions are not searched. */
  function CollectedVars(e: Expr): set<string> {
    match e
    case Var(v) => {v}
    case Add(a, b) => CollectedVars(a) + CollectedVars(b)
    case Sub(a, b) => CollectedVars(a) + CollectedVars(b)
    case Mul(a, b) => CollectedVars(a) + CollectedVars(b)
    case Pow(a, b) => CollectedVars(a) + CollectedVars(b)
    case Neg(a) => CollectedVars(a)
    case Fn(f, a) => if IsSearched(f) then CollectedVars(a) else {}
    case _ => {}
  }

  /** No quotient, and only functions that are searched. */
  predicate NothingSkipped(e: Expr) {
    match e
    case Num(_) => true
    case Var(_) => true
    case Add(a, b) => NothingSkipped(a) && NothingSkipped(b)
    case Sub(a, b) => NothingSkipped(a) && NothingSkipped(b)
    case Mul(a, b) => NothingSkipped(a) && NothingSkipped(b)
    case Div(_, _) => false
    case Pow(a, b) => NothingSkipped(a) && NothingSkipped(b)
    case Neg(a) => NothingSkipped(a)
    case Fn(f, a) => f in {Sin, Cos, Tan, Sqrt, Exp, Ln, Abs} && NothingSkipped(a)
  }

  /** Then every variable is found. */
  lemma {:induction false} VariablesFound(e: Expr)
    requires NothingSkipped(e)
    ensures CollectedVars(e) == AllVars(e)
  {
    match e
    case Add(a, b) => VariablesFound(a); VariablesFound(b);
    case Sub(a, b) => VariablesFound(a); VariablesFound(b);
    case Mul(a, b) => VariablesFound(a); VariablesFound(b);
    case Pow(a, b) => VariablesFound(a); VariablesFound(b);
    case Neg(a) => VariablesFound(a);
    case Fn(_, a) => VariablesFound(a);
    case _ =>
  }

  /** `collect_vars` as the program runs it, appending to a list. */
  function CollectVars(e: Expr): (vs: seq<string>)
    ensures forall v :: v in vs <==> v in CollectedVars(e)
  {
    match e
    case Var(v) => [v]
    case Add(a, b) => CollectVars(a) + CollectVars(b)
    case Sub(a, b) => CollectVars(a) + CollectVars(b)
    case Mul(a, b) => CollectVars(a) + CollectVars(b)
    case Pow(a, b) => CollectVars(a) + CollectVars(b)
    case Neg(a) => CollectVars(a)
    case Fn(f, a) => if IsSearched(f) then CollectVars(a) else []
    case _ => []
  }

  function AllVars(e: Expr): set<string> {
    match e
    case Num(_) => {}
    case Var(v) => {v}
    case Add(a, b) => AllVars(a) + AllVars(b)
    case Sub(a, b) => AllVars(a) + AllVars(b)
    case Mul(a, b) => AllVars(a) + AllVars(b)
    case Div(a, b) => AllVars(a) + AllVars(b)
    case Pow(a, b) => AllVars(a) + AllVars(b)
    case Neg(a) => AllVars(a)
    case Fn(_, a) => AllVars(a)
  }

  /** A rewriting that brings in no variable. */
  ghost predicate NoNewVars(e: Expr, r: Expr) {
    AllVars(r) <= AllVars(e)
  }

  /** The variables of an expression are those of its operands. */
  lemma OperandVars(e: Expr)
    ensures e.Neg? || e.Fn? ==> AllVars(e) == AllVars(e.arg)
    ensures e.Add? || e.Sub? || e.Mul? || e.Div? ==> AllVars(e) == AllVars(e.left) + AllVars(e.right)
    ensures e.Pow? ==> AllVars(e) == AllVars(e.base) + AllVars(e.exponent)
  {
  }

  lemma SumRulesVars(a: Expr, b: Expr)
    ensures NoNewVars(Add(a, b), AddRules(a, b)) && NoNewVars(Sub(a, b), SubRules(a, b))
    ensures NoNewVars(Div(a, b), DivRules(a, b)) && NoNewVars(Neg(a), NegRules(a))
  {
    OperandVars(a);
    OperandVars(b);
  }

  lemma PowerRulesVars(m: Lib, a: Expr, b: Expr)
    ensures NoNewVars(Pow(a, b), PowRules(m, a, b))
  {
  }

  lemma MulRulesVars(a: Expr, b: Expr)
    ensures NoNewVars(Mul(a, b), MulRules(a, b))
  {
    if a.Num? {
      ScaleLeftVars(a, b);
    } else if b.Num? {
      ScaleRightVars(a, b);
    } else {
      MergePowersVars(a, b);
    }
  }

  lemma ScaleLeftVars(a: Expr, b: Expr)
    requires a.Num?
    ensures NoNewVars(Mul(a, b), ScaleLeft(a, b))
  {
    var r := ScaleLeft(a, b);
    OperandVars(b);
    if r.Add? || r.Sub? {
      OperandVars(r.left);
      OperandVars(r.right);
    }
  }

  lemma ScaleRightVars(a: Expr, b: Expr)
    requires b.Num?
    ensures NoNewVars(Mul(a, b), ScaleRight(a, b))
  {
    var r := ScaleRight(a, b);
    OperandVars(a);
    if r.Add? || r.Sub? {
      OperandVars(r.left);
      OperandVars(r.right);
    }
  }

  lemma MergePowersVars(a: Expr, b: Expr)
    ensures NoNewVars(Mul(a, b), MergePowers(a, b))
  {
    var r := MergePowers(a, b);
    OperandVars(a);
    if r.Pow? { assert AllVars(r.exponent) == {} && AllVars(r) == AllVars(r.base); }
  }

  lemma {:induction false} SimplifyVars(m: Lib, e: Expr)
    ensures NoNewVars(e, Simplify(m, e))
    decreases Weight(e), 1
  {
    match e
    case Add(a, b) =>
      SimplifyVars(m, a); SimplifyVars(m, b);
      SumRulesVars(Simplify(m, a), Simplify(m, b));
      FoldNumericVars(m, AddRules(Simplify(m, a), Simplify(m, b)));
    case Sub(a, b) =>
      SimplifyVars(m, a); SimplifyVars(m, b);
      SumRulesVars(Simplify(m, a), Simplify(m, b));
      FoldNumericVars(m, SubRules(Simplify(m, a), Simplify(m, b)));
    case Mul(a, b) =>
      WeightProductMonotone(Weight(Simplify(m, a)), Weight(Simplify(m, b)), Weight(a), Weight(b));
      SimplifyVars(m, a); SimplifyVars(m, b);
      MulRulesVars(Simplify(m, a), Simplify(m, b));
      FoldNumericVars(m, MulRules(Simplify(m, a), Simplify(m, b)));
    case Div(a, b) =>
      WeightProductMonotone(Weight(Simplify(m, a)), Weight(Simplify(m, b)), Weight(a), Weight(b));
      SimplifyVars(m, a); SimplifyVars(m, b);
      SumRulesVars(Simplify(m, a), Simplify(m, b));
      FoldNumericVars(m, DivRules(Simplify(m, a), Simplify(m, b)));
    case Pow(a, b) =>
      SimplifyVars(m, a); SimplifyVars(m, b);
      PowerRulesVars(m, Simplify(m, a), Simplify(m, b));
      FoldNumericVars(m, PowRules(m, Simplify(m, a), Simplify(m, b)));
    case Neg(a) =>
      SimplifyVars(m, a);
      SumRulesVars(Simplify(m, a), Simplify(m, a));
      FoldNumericVars(m, NegRules(Simplify(m, a)));
    case Fn(f, a) =>
      SimplifyVars(m, a);
      FoldNumericVars(m, Fn(f, Simplify(m, a)));
    case _ =>
  }

  lemma {:induction false} FoldNumericVars(m: Lib, e: Expr)
    ensures NoNewVars(e, FoldNumeric(m, e))
    decreases Weight(e), 0, 0
  {
    CancelInverseVars(e);
    match CancelInverse(e)
    case Add(a, b) => SimplifyVars(m, a); SimplifyVars(m, b);
    case Sub(a, b) => SimplifyVars(m, a); SimplifyVars(m, b);
    case Mul(a, b) => SimplifyVars(m, a); SimplifyVars(m, b);
    case Div(a, b) => SimplifyVars(m, a); SimplifyVars(m, b);
    case Pow(a, b) => SimplifyVars(m, a); SimplifyVars(m, b);
    case Neg(a) => SimplifyVars(m, a);
    case _ =>
  }

  lemma CancelInverseVars(e: Expr)
    ensures NoNewVars(e, CancelInverse(e))
  {
    match e
    case Fn(Ln, Fn(Exp, x)) => assert AllVars(e.arg) == AllVars(x);
    case Fn(Exp, Fn(Ln, x)) => assert AllVars(e.arg) == AllVars(x);
    case _ =>
  }

  /** An expression has a value only where its variables have one. */
  lemma {:induction false} DefinedVars(m: Lib, env: Env, e: Expr)
    requires Strict(m, env, e).Some?
    ensures forall v | v in AllVars(e) :: v in env || v == "pi" || v == "e"
  {
    match e
    case Add(a, b) => DefinedVars(m, env, a); DefinedVars(m, env, b);
    case Sub(a, b) => DefinedVars(m, env, a); DefinedVars(m, env, b);
    case Mul(a, b) => DefinedVars(m, env, a); DefinedVars(m, env, b);
    case Div(a, b) => DefinedVars(m, env, a); DefinedVars(m, env, b);
    case Pow(a, b) => DefinedVars(m, env, a); DefinedVars(m, env, b);
    case Neg(a) => DefinedVars(m, env, a);
    case Fn(_, a) => DefinedVars(m, env, a);
    case _ =>
  }

  // ----- the columns -----

  /** The position of `v` in the list of columns, or the length of the list. */
  function Position(vars: seq<string>, v: string): (i: nat)
    ensures i <= |vars|
    ensures i < |vars| ==> vars[i] == v
    ensures i < |vars| <==> v in vars
  {
    if vars == [] || vars[0] == v then 0 else 1 + Position(vars[1..], v)
  }

  /** Inserts a name into a sorted list without duplicates. */
  function InsertName(v: string, vars: seq<string>): (r: seq<string>)
    ensures forall u :: u in r <==> u == v || u in vars
  {
    if vars == [] then [v]
    else if v == vars[0] then vars
    else if StringLeq(v, vars[0]) then [v] + vars
    else
      assert vars == [vars[0]] + vars[1..];
      [vars[0]] + InsertName(v, vars[1..])
  }

  /** `sort` followed by `dedup`. */
  function Columns(names: seq<string>): (r: seq<string>)
    ensures forall u :: u in r <==> u in names
  {
    if names == [] then []
    else
      assert names == [names[0]] + names[1..];
      InsertName(names[0], Columns(names[1..]))
  }

  /** The columns are sorted, and no name has two of them. */
  lemma {:induction false} ColumnsSorted(names: seq<string>)
    ensures SortedNames(Columns(names))
  {
    if names != [] {
      ColumnsSorted(names[1..]);
      InsertNameSorted(names[0], Columns(names[1..]));
    }
  }

  predicate SortedNames(vars: seq<string>) {
    forall i, j | 0 <= i < j < |vars| :: vars[i] != vars[j] && StringLeq(vars[i], vars[j])
  }

  lemma {:induction false} InsertNameSorted(v: string, vars: seq<string>)
    requires SortedNames(vars)
    ensures SortedNames(InsertName(v, vars))
  {
    if vars != [] && v != vars[0] {
      var tail := vars[1..];
      StringLeqTotal(v, vars[0]);
      if StringLeq(v, vars[0]) {
        forall j | 0 <= j < |vars| ensures StringLeq(v, vars[j]) && v != vars[j] {
          if j > 0 { AfterFirst(v, vars, j); }
        }
      } else {
        InsertNameSorted(v, tail);
        var r := InsertName(v, tail);
        forall j | 0 <= j < |r| ensures StringLeq(vars[0], r[j]) && vars[0] != r[j] {
          assert r[j] in r;
          if r[j] != v {
            var k :| 0 <= k < |tail| && tail[k] == r[j];
            assert vars[k + 1] == r[j];
          }
        }
      }
    }
  }

  lemma AfterFirst(v: string, vars: seq<string>, j: nat)
    requires SortedNames(vars) && 0 < j < |vars| && StringLeq(v, vars[0]) && v != vars[0]
    ensures StringLeq(v, vars[j]) && v != vars[j]
  {
    StringLeqTransitive(v, vars[0], vars[j]);
    if v == vars[j] { StringLeqTotal(vars[0], vars[j]); }
  }

  /** An equation whose variables stand only in quotients and hyperbolic or inverse functions has no columns. */
  lemma SkippedVariables(a: Expr, b: Expr, f: Func, c: real)
    requires f in {Sinh, Cosh, Tanh, Asin, Acos, Atan}
    ensures Columns(AllNames([(Fn(f, a), Num(c))])) == [] == Columns(AllNames([(Div(a, b), Num(c))]))
  {
    NoColumns((Fn(f, a), Num(c)));
    NoColumns((Div(a, b), Num(c)));
  }

  lemma NoColumns(eq: Equation)
    requires CollectedVars(eq.0) == {} == CollectedVars(eq.1)
    ensures Columns(AllNames([eq])) == []
  {
    var eqs := [eq];
    assert eqs[1..] == [];
    assert forall v :: v !in CollectVars(eq.0) && v !in CollectVars(eq.1);
    if AllNames(eqs) != [] { assert AllNames(eqs)[0] in AllNames(eqs); }
  }

  type Equation = (Expr, Expr)

  /** Every variable found in the equation has a column. */
  ghost predicate HasColumns(eq: Equation, vars: seq<string>) {
    forall v | v in CollectedVars(eq.0) + CollectedVars(eq.1) :: v in vars
  }

  function AllNames(eqs: seq<Equation>): (names: seq<string>)
    ensures forall i | 0 <= i < |eqs| :: HasColumns(eqs[i], names)
  {
    if eqs == [] then []
    else CollectVars(eqs[0].0) + CollectVars(eqs[0].1) + AllNames(eqs[1..])
  }

  // ----- extraction -----

  /** A partly filled row of coefficients and the constant beside it. */
  datatype Linear = Linear(row: Row, constant: real)

  /** Adds d to the coefficient of v. */
  function AddCoefficient(vars: seq<string>, v: string, d: real, acc: Linear): (r: Linear)
    requires |acc.row| == |vars|
    ensures |r.row| == |vars|
  {
    var i := Position(vars, v);
    if i < |vars| then acc.(row := acc.row[i := acc.row[i] + d]) else acc
  }

  /** `extract_linear_terms`: adds `sign` times `e` to `acc`. A variable without a column is ignored. */
  function ExtractLinear(e: Expr, vars: seq<string>, sign: real, acc: Linear): (r: Result<Linear, string>)
    requires |acc.row| == |vars|
    ensures r.Ok? ==> |r.value.row| == |vars|
  {
    match e
    case Num(n) => Ok(acc.(constant := acc.constant + Times(sign, n)))
    case Var(v) => Ok(AddCoefficient(vars, v, sign, acc))
    case Add(a, b) =>
      (match ExtractLinear(a, vars, sign, acc)
       case Err(x) => Err(x)
       case Ok(acc') => ExtractLinear(b, vars, sign, acc'))
    case Sub(a, b) =>
      (match ExtractLinear(a, vars, sign, acc)
       case Err(x) => Err(x)
       case Ok(acc') => ExtractLinear(b, vars, -sign, acc'))
    case Neg(a) => ExtractLinear(a, vars, -sign, acc)
    case Mul(a, b) =>
      if a.Num? && b.Var? && b.name in vars then Ok(AddCoefficient(vars, b.name, Times(sign, a.n), acc))
      else if b.Num? && a.Var? && a.name in vars then Ok(AddCoefficient(vars, a.name, Times(sign, b.n), acc))
      else Err(NON_LINEAR)
    case Pow(base, exp) =>
      if base.Var? && exp == Num(1.0) && base.name in vars then Ok(AddCoefficient(vars, base.name, sign, acc))
      else Err(NON_LINEAR)
    case _ => Err(NON_LINEAR)
  }

  const NON_LINEAR := "non-linear term in system"

  /**
    Literals, variables, literal multiples of columns and columns to the power 1, under
    sums, differences and negations.
    */
  predicate IsLinear(e: Expr, vars: seq<string>) {
    match e
    case Num(_) => true
    case Var(_) => true
    case Add(a, b) => IsLinear(a, vars) && IsLinear(b, vars)
    case Sub(a, b) => IsLinear(a, vars) && IsLinear(b, vars)
    case Neg(a) => IsLinear(a, vars)
    case Mul(a, b) => (a.Num? && IsColumn(b, vars)) || (IsColumn(a, vars) && b.Num?)
    case Pow(base, exp) => IsColumn(base, vars) && exp == Num(1.0)
    case _ => false
  }

  predicate IsColumn(e: Expr, vars: seq<string>) {
    e.Var? && e.name in vars
  }

  /** Extraction succeeds on exactly these expressions, whatever has been extracted before. */
  lemma {:induction false} ExtractsExactly(e: Expr, vars: seq<string>, sign: real, acc: Linear)
    requires |acc.row| == |vars|
    ensures ExtractLinear(e, vars, sign, acc).Ok? <==> IsLinear(e, vars)
    ensures ExtractLinear(e, vars, sign, acc).Err? ==> ExtractLinear(e, vars, sign, acc) == Err(NON_LINEAR)
  {
    match e
    case Add(a, b) =>
      ExtractsExactly(a, vars, sign, acc);
      if IsLinear(a, vars) { ExtractsExactly(b, vars, sign, ExtractLinear(a, vars, sign, acc).value); }
    case Sub(a, b) =>
      ExtractsExactly(a, vars, sign, acc);
      if IsLinear(a, vars) { ExtractsExactly(b, vars, -sign, ExtractLinear(a, vars, sign, acc).value); }
    case Neg(a) => ExtractsExactly(a, vars, -sign, acc);
    case _ =>
  }

  /** The same as the program runs it, writing into the row. */
  method ExtractLinearTerms(e: Expr, vars: seq<string>, sign: real, row: array<real>, constant: real)
    returns (ok: bool, constant': real)
    requires row.Length == |vars|
    modifies row
    ensures ok <==> IsLinear(e, vars)
    ensures ok <==> ExtractLinear(e, vars, sign, Linear(old(row[..]), constant)).Ok?
    ensures ok ==> ExtractLinear(e, vars, sign, Linear(old(row[..]), constant)) == Ok(Linear(row[..], constant'))
    decreases e
  {
    constant' := constant;
    match e
    case Num(n) =>
      constant' := constant + Times(sign, n);
      ok := true;
    case Var(v) =>
      AddToColumn(vars, v, sign, row);
      ok := true;
    case Add(a, b) =>
      ok, constant' := ExtractLinearTerms(a, vars, sign, row, constant);
      if ok { ok, constant' := ExtractLinearTerms(b, vars, sign, row, constant'); }
    case Sub(a, b) =>
      ok, constant' := ExtractLinearTerms(a, vars, sign, row, constant);
      if ok { ok, constant' := ExtractLinearTerms(b, vars, -sign, row, constant'); }
    case Neg(a) => ok, constant' := ExtractLinearTerms(a, vars, -sign, row, constant);
    case Mul(a, b) =>
      if a.Num? && b.Var? && b.name in vars {
        AddToColumn(vars, b.name, Times(sign, a.n), row);
        ok := true;
      } else if b.Num? && a.Var? && a.name in vars {
        AddToColumn(vars, a.name, Times(sign, b.n), row);
        ok := true;
      } else {
        ok := false;
      }
    case Pow(base, exp) =>
      if base.Var? && exp == Num(1.0) && base.name in vars {
        AddToColumn(vars, base.name, sign, row);
        ok := true;
      } else {
        ok := false;
      }
    case _ => ok := false;
  }

  method AddToColumn(vars: seq<string>, v: string, d: real, row: array<real>)
    requires row.Length == |vars|
    modifies row
    ensures forall c: real :: AddCoefficient(vars, v, d, Linear(old(row[..]), c)) == Linear(row[..], c)
  {
    var i := Position(vars, v);
    if i < |vars| {
      row[i] := row[i] + d;
    }
  }

  // ----- what extraction computes -----

  /** The assignment of x to the columns. */
  function Assignment(vars: seq<string>, x: Row): (env: Env)
    requires |x| == |vars|
    ensures forall v :: v in env <==> v in vars
    ensures forall v :: v in vars ==> env[v] == x[Position(vars, v)]
  {
    map v | v in vars :: x[Position(vars, v)]
  }

  /** The parser reads pi and e as numbers, so they are not names of variables. */
  predicate NoConstants(e: Expr) {
    "pi" !in AllVars(e) && "e" !in AllVars(e)
  }

  /** An assignment that gives the columns the values x, and others to further variables. */
  ghost predicate Extends(env: Env, vars: seq<string>, x: Row)
    requires |x| == |vars|
  {
    forall v | v in vars :: v in env && env[v] == x[Position(vars, v)]
  }

  /** What the bare occurrences of variables without a column add up to; extraction ignores them. */
  function HiddenValue(env: Env, vars: seq<string>, e: Expr): real {
    match e
    case Var(v) => if v in vars || v !in env then 0.0 else env[v]
    case Add(a, b) => HiddenValue(env, vars, a) + HiddenValue(env, vars, b)
    case Sub(a, b) => HiddenValue(env, vars, a) - HiddenValue(env, vars, b)
    case Neg(a) => -HiddenValue(env, vars, a)
    case _ => 0.0
  }

  function LinearValue(acc: Linear, x: Row): real
    requires |x| == |acc.row|
  {
    Dot(acc.row, x, 0, |x|) + acc.constant
  }

  lemma {:induction false} DotUpdate(r: Row, x: Row, i: nat, d: real, k: nat)
    requires |r| == |x| && i < |r| && k <= |r|
    ensures Dot(r[i := r[i] + d], x, k, |x|) == Dot(r, x, k, |x|) + (if k <= i then Times(d, x[i]) else 0.0)
    decreases |r| - k
  {
    if k < |r| {
      DotUpdate(r, x, i, d, k + 1);
      TimesDistributes(r[i], d, x[i]);
    }
  }

  lemma AddCoefficientValue(vars: seq<string>, v: string, d: real, acc: Linear, x: Row)
    requires |acc.row| == |vars| == |x| && v in vars
    ensures LinearValue(AddCoefficient(vars, v, d, acc), x) == LinearValue(acc, x) + Times(d, x[Position(vars, v)])
  {
    DotUpdate(acc.row, x, Position(vars, v), d, 0);
  }

  /** What extraction adds is `sign` times the value of the expression, less what is hidden. */
  lemma {:induction false} ExtractLinearValue(m: Lib, env: Env, vars: seq<string>, x: Row, e: Expr, sign: real,
                                              acc: Linear)
    requires |acc.row| == |vars| == |x| && Extends(env, vars, x) && NoConstants(e)
    requires ExtractLinear(e, vars, sign, acc).Ok? && Strict(m, env, e).Some?
    ensures LinearValue(ExtractLinear(e, vars, sign, acc).value, x) ==
            LinearValue(acc, x) + Times(sign, Strict(m, env, e).value - HiddenValue(env, vars, e))
  {
    assert Times(sign, 0.0) == 0.0;
    hide Times;
    match e
    case Num(n) =>
    case Var(v) => if v in vars { AddCoefficientValue(vars, v, sign, acc, x); }
    case Add(a, b) =>
      var mid := ExtractLinear(a, vars, sign, acc).value;
      ExtractLinearValue(m, env, vars, x, a, sign, acc);
      ExtractLinearValue(m, env, vars, x, b, sign, mid);
      DefinedLess(m, env, vars, a, b, sign);
    case Sub(a, b) =>
      var mid := ExtractLinear(a, vars, sign, acc).value;
      ExtractLinearValue(m, env, vars, x, a, sign, acc);
      ExtractLinearValue(m, env, vars, x, b, -sign, mid);
      DefinedLess(m, env, vars, a, b, sign);
    case Neg(a) =>
      ExtractLinearValue(m, env, vars, x, a, -sign, acc);
      DefinedLess(m, env, vars, a, a, sign);
    case Mul(a, b) => ExtractProductValue(m, env, vars, x, e, sign, acc);
    case Pow(base, exp) =>
      AddCoefficientValue(vars, base.name, sign, acc, x);
      assert Strict(m, env, base) == Some(x[Position(vars, base.name)]);
      assert Strict(m, env, exp) == Some(1.0);
      Powers.PowfSmall(m, x[Position(vars, base.name)], 1.0);
  }

  /** What is left of a sum, a difference or a negation after what is hidden in it. */
  lemma DefinedLess(m: Lib, env: Env, vars: seq<string>, a: Expr, b: Expr, sign: real)
    requires Strict(m, env, a).Some? && Strict(m, env, b).Some?
    ensures var p := Strict(m, env, a).value - HiddenValue(env, vars, a);
            var q := Strict(m, env, b).value - HiddenValue(env, vars, b);
            && Times(sign, Strict(m, env, Add(a, b)).value - HiddenValue(env, vars, Add(a, b))) ==
               Times(sign, p) + Times(sign, q)
            && Times(sign, Strict(m, env, Sub(a, b)).value - HiddenValue(env, vars, Sub(a, b))) ==
               Times(sign, p) + Times(-sign, q)
            && Times(sign, Strict(m, env, Neg(a)).value - HiddenValue(env, vars, Neg(a))) == Times(-sign, p)
  {
    SignedSum(sign, Strict(m, env, a).value - HiddenValue(env, vars, a),
              Strict(m, env, b).value - HiddenValue(env, vars, b));
    SignedSum(sign, 0.0, Strict(m, env, a).value - HiddenValue(env, vars, a));
  }

  lemma ExtractProductValue(m: Lib, env: Env, vars: seq<string>, x: Row, e: Expr, sign: real, acc: Linear)
    requires |acc.row| == |vars| == |x| && Extends(env, vars, x) && NoConstants(e) && e.Mul?
    requires ExtractLinear(e, vars, sign, acc).Ok? && Strict(m, env, e).Some?
    ensures LinearValue(ExtractLinear(e, vars, sign, acc).value, x) ==
            LinearValue(acc, x) + Times(sign, Strict(m, env, e).value)
  {
    var a, b := e.left, e.right;
    ExtractedProduct(a, b, vars, sign, acc);
    assert AllVars(e) == AllVars(a) + AllVars(b);
    if a.Num? && b.Var? && b.name in vars {
      assert b.name in AllVars(b);
      ColumnValue(m, env, vars, x, b.name);
      ScaledCoefficient(vars, b.name, a.n, sign, acc, x);
      assert Strict(m, env, e) == Some(Times(a.n, x[Position(vars, b.name)]));
    } else {
      assert a.name in AllVars(a);
      ColumnValue(m, env, vars, x, a.name);
      ScaledCoefficient(vars, a.name, b.n, sign, acc, x);
      assert Strict(m, env, e) == Some(Times(x[Position(vars, a.name)], b.n));
    }
  }

  lemma ColumnValue(m: Lib, env: Env, vars: seq<string>, x: Row, v: string)
    requires |vars| == |x| && Extends(env, vars, x) && v in vars && v != "pi" && v != "e"
    ensures Strict(m, env, Var(v)) == Some(x[Position(vars, v)])
  {
  }

  lemma ExtractedProduct(a: Expr, b: Expr, vars: seq<string>, sign: real, acc: Linear)
    requires |acc.row| == |vars| && ExtractLinear(Mul(a, b), vars, sign, acc).Ok?
    ensures if a.Num? && b.Var? && b.name in vars
            then ExtractLinear(Mul(a, b), vars, sign, acc) == Ok(AddCoefficient(vars, b.name, Times(sign, a.n), acc))
            else b.Num? && a.Var? && a.name in vars &&
                 ExtractLinear(Mul(a, b), vars, sign, acc) == Ok(AddCoefficient(vars, a.name, Times(sign, b.n), acc))
  {
  }

  lemma ScaledCoefficient(vars: seq<string>, v: string, k: real, sign: real, acc: Linear, x: Row)
    requires |acc.row| == |vars| == |x| && v in vars
    ensures var y := x[Position(vars, v)];
            && LinearValue(AddCoefficient(vars, v, Times(sign, k), acc), x) ==
               LinearValue(acc, x) + Times(sign, Times(k, y))
            && Times(k, y) == Times(y, k)
  {
    AddCoefficientValue(vars, v, Times(sign, k), acc, x);
    TimesAssociates(sign, k, x[Position(vars, v)]);
  }

  lemma SignedSum(s: real, a: real, b: real)
    ensures Times(s, a + b) == Times(s, a) + Times(s, b)
    ensures Times(s, a - b) == Times(s, a) + Times(-s, b)
    ensures Times(s, -b) == Times(-s, b)
  {
  }

  // ----- solving -----

  datatype Solution = Solution(vars: seq<string>, values: Row)

  const NO_EQUATIONS := "no equations provided"
  const NO_VARIABLES := "no variables found"
  const TOO_FEW := "too few equations"

  /** The expression that is extracted from an equation. */
  function Difference(m: Lib, eq: Equation): Expr {
    Simplify(m, Sub(eq.0, eq.1))
  }

  /** The row and the right-hand side that one equation contributes. */
  function EquationRow(m: Lib, eq: Equation, vars: seq<string>): (r: Result<Linear, string>)
    ensures r.Ok? ==> |r.value.row| == |vars|
  {
    ExtractLinear(Difference(m, eq), vars, 1.0, Linear(seq(|vars|, _ => 0.0), 0.0))
  }

  /** Both sides have a value at the assignment, and the values are equal. */
  ghost predicate SatisfiedBy(m: Lib, eq: Equation, env: Env) {
    Strict(m, env, eq.0).Some? && Strict(m, env, eq.0) == Strict(m, env, eq.1)
  }

  ghost predicate DefinedAt(m: Lib, eq: Equation, env: Env) {
    Strict(m, env, eq.0).Some? && Strict(m, env, eq.1).Some?
  }

  lemma {:induction false} DotOfZeros(n: nat, x: Row, k: nat)
    requires |x| == n && k <= n
    ensures Dot(seq(n, _ => 0.0), x, k, n) == 0.0
    decreases n - k
  {
    if k < n {
      DotOfZeros(n, x, k + 1);
      assert Times(0.0, x[k]) == 0.0;
    }
  }

  predicate ParsedEquation(eq: Equation) {
    NoConstants(eq.0) && NoConstants(eq.1)
  }

  /**
    The exact meaning of a row. At an assignment that extends x and at which the equation
    is defined, the equation holds exactly when row and hidden occurrences add up to 0.
    */
  lemma ExtendedRowExact(m: Lib, eq: Equation, vars: seq<string>, x: Row, env: Env)
    requires Lawful(m) && ParsedEquation(eq) && EquationRow(m, eq, vars).Ok?
    requires |x| == |vars| && Extends(env, vars, x) && DefinedAt(m, eq, env)
    ensures SatisfiedBy(m, eq, env) <==>
            LinearValue(EquationRow(m, eq, vars).value, x) + HiddenValue(env, vars, Difference(m, eq)) == 0.0
  {
    var diff := Sub(eq.0, eq.1);
    var zero := Linear(seq(|vars|, _ => 0.0), 0.0);
    SimplifyVars(m, diff);
    SimplifyRefines(m, env, diff);
    ExtractLinearValue(m, env, vars, x, Difference(m, eq), 1.0, zero);
    DotOfZeros(|vars|, x, 0);
    var hidden := HiddenValue(env, vars, Difference(m, eq));
    assert Times(1.0, Strict(m, env, diff).value - hidden) == Strict(m, env, diff).value - hidden;
  }

  lemma {:induction false} NothingHidden(env: Env, vars: seq<string>, e: Expr)
    requires forall v | v in env && v !in vars :: env[v] == 0.0
    ensures HiddenValue(env, vars, e) == 0.0
  {
    match e
    case Add(a, b) => NothingHidden(env, vars, a); NothingHidden(env, vars, b);
    case Sub(a, b) => NothingHidden(env, vars, a); NothingHidden(env, vars, b);
    case Neg(a) => NothingHidden(env, vars, a);
    case _ =>
  }

  /** Where an equation is defined at an assignment to the columns alone, it holds exactly when its row does. */
  lemma EquationRowExact(m: Lib, eq: Equation, vars: seq<string>, x: Row)
    requires Lawful(m) && ParsedEquation(eq) && EquationRow(m, eq, vars).Ok?
    requires |x| == |vars| && DefinedAt(m, eq, Assignment(vars, x))
    ensures SatisfiedBy(m, eq, Assignment(vars, x)) <==>
            LinearValue(EquationRow(m, eq, vars).value, x) == 0.0
  {
    ExtendedRowExact(m, eq, vars, x, Assignment(vars, x));
    NothingHidden(Assignment(vars, x), vars, Difference(m, eq));
  }

  // ----- variables without a column -----

  /** How often a variable stands bare in a sum, occurrences after a minus counted negatively. */
  function NetOccurrences(e: Expr, v: string): int {
    match e
    case Var(u) => if u == v then 1 else 0
    case Add(a, b) => NetOccurrences(a, v) + NetOccurrences(b, v)
    case Sub(a, b) => NetOccurrences(a, v) - NetOccurrences(b, v)
    case Neg(a) => -NetOccurrences(a, v)
    case _ => 0
  }

  lemma {:induction false} HiddenUpdate(env: Env, vars: seq<string>, e: Expr, v: string, c: real)
    requires v in env && v !in vars
    ensures HiddenValue(env[v := c], vars, e) ==
            HiddenValue(env, vars, e) + Times(NetOccurrences(e, v) as real, c - env[v])
  {
    var d := c - env[v];
    match e
    case Var(u) => assert Times(1.0, d) == d && Times(0.0, d) == 0.0;
    case Add(a, b) =>
      HiddenUpdate(env, vars, a, v, c); HiddenUpdate(env, vars, b, v, c);
      TimesDistributes(NetOccurrences(a, v) as real, NetOccurrences(b, v) as real, d);
    case Sub(a, b) =>
      HiddenUpdate(env, vars, a, v, c); HiddenUpdate(env, vars, b, v, c);
      TimesDistributes(NetOccurrences(a, v) as real, -(NetOccurrences(b, v) as real), d);
      TimesNegates(NetOccurrences(b, v) as real, d);
    case Neg(a) =>
      HiddenUpdate(env, vars, a, v, c);
      TimesNegates(NetOccurrences(a, v) as real, d);
    case _ => assert Times(0.0, d) == 0.0;
  }

  /** Every variable without a column cancels out of the simplified difference. */
  ghost predicate HiddenCancel(m: Lib, eq: Equation, vars: seq<string>) {
    forall v: string | v !in vars :: NetOccurrences(Difference(m, eq), v) == 0
  }

  lemma {:induction false} CancelledIsZero(env: Env, vars: seq<string>, e: Expr, names: set<string>)
    requires forall v | v in names :: v in env && v !in vars && NetOccurrences(e, v) == 0
    requires forall v | v in env && v !in vars && v !in names :: env[v] == 0.0
    ensures HiddenValue(env, vars, e) == 0.0
    decreases names
  {
    if names == {} {
      NothingHidden(env, vars, e);
    } else {
      var v :| v in names;
      HiddenUpdate(env, vars, e, v, 0.0);
      assert Times(0.0, 0.0 - env[v]) == 0.0;
      CancelledIsZero(env[v := 0.0], vars, e, names - {v});
    }
  }

  /** The extension that gives one variable without a column the value 1 and the others of the equation 0. */
  function UnitExtension(eq: Equation, vars: seq<string>, x: Row, name: string): Env
    requires |x| == |vars|
  {
    map v | v in AllVars(eq.0) + AllVars(eq.1) + (set u | u in vars) ::
      if v in vars then x[Position(vars, v)] else if v == name then 1.0 else 0.0
  }

  ghost predicate DefinedAtUnits(m: Lib, eq: Equation, vars: seq<string>, x: Row)
    requires |x| == |vars|
  {
    forall v: string | v !in vars :: DefinedAt(m, eq, UnitExtension(eq, vars, x, v))
  }

  /** Every assignment that extends x and at which the equation is defined satisfies it. */
  ghost predicate HoldsThroughout(m: Lib, eq: Equation, vars: seq<string>, x: Row)
    requires |x| == |vars|
  {
    forall env: Env | Extends(env, vars, x) && DefinedAt(m, eq, env) :: SatisfiedBy(m, eq, env)
  }

  /**
    Where its row holds, an equation holds at every extension at which it is defined, if
    the variables without a column cancel; and only if they do, when it is defined at the
    extensions by 0 and 1.
    */
  lemma ExtensionsExact(m: Lib, eq: Equation, vars: seq<string>, x: Row)
    requires Lawful(m) && ParsedEquation(eq) && EquationRow(m, eq, vars).Ok?
    requires |x| == |vars| && LinearValue(EquationRow(m, eq, vars).value, x) == 0.0
    ensures HiddenCancel(m, eq, vars) ==> HoldsThroughout(m, eq, vars, x)
    ensures DefinedAtUnits(m, eq, vars, x) ==> (HoldsThroughout(m, eq, vars, x) <==> HiddenCancel(m, eq, vars))
  {
    var diff := Difference(m, eq);
    if HiddenCancel(m, eq, vars) {
      forall env: Env | Extends(env, vars, x) && DefinedAt(m, eq, env) ensures SatisfiedBy(m, eq, env) {
        CancelledIsZero(env, vars, diff, set v | v in env && v !in vars);
        ExtendedRowExact(m, eq, vars, x, env);
      }
    }
    if HoldsThroughout(m, eq, vars, x) && DefinedAtUnits(m, eq, vars, x) {
      forall v: string | v !in vars ensures NetOccurrences(diff, v) == 0 {
        UnitHiddenValue(m, eq, vars, x, v);
        ExtendedRowExact(m, eq, vars, x, UnitExtension(eq, vars, x, v));
      }
    }
  }

  lemma UnitHiddenValue(m: Lib, eq: Equation, vars: seq<string>, x: Row, v: string)
    requires |x| == |vars| && v !in vars
    ensures Extends(UnitExtension(eq, vars, x, v), vars, x)
    ensures HiddenValue(UnitExtension(eq, vars, x, v), vars, Difference(m, eq)) ==
            NetOccurrences(Difference(m, eq), v) as real
  {
    var env, diff := UnitExtension(eq, vars, x, v), Difference(m, eq);
    SimplifyVars(m, Sub(eq.0, eq.1));
    if v in env {
      NothingHidden(env[v := 0.0], vars, diff);
      HiddenUpdate(env, vars, diff, v, 0.0);
      assert Times(NetOccurrences(diff, v) as real, 0.0 - 1.0) == -(NetOccurrences(diff, v) as real);
    } else {
      NothingHidden(env, vars, diff);
      AbsentVariable(diff, v);
    }
  }

  lemma {:induction false} AbsentVariable(e: Expr, v: string)
    requires v !in AllVars(e)
    ensures NetOccurrences(e, v) == 0
  {
    match e
    case Add(a, b) => AbsentVariable(a, v); AbsentVariable(b, v);
    case Sub(a, b) => AbsentVariable(a, v); AbsentVariable(b, v);
    case Neg(a) => AbsentVariable(a, v);
    case _ =>
  }

  /** The test a caller can make: every variable of the equation has a column. */
  lemma ColumnsCover(m: Lib, eq: Equation, vars: seq<string>)
    requires forall v | v in AllVars(eq.0) + AllVars(eq.1) :: v in vars
    ensures HiddenCancel(m, eq, vars)
  {
    SimplifyVars(m, Sub(eq.0, eq.1));
    forall v: string | v !in vars ensures NetOccurrences(Difference(m, eq), v) == 0 {
      AbsentVariable(Difference(m, eq), v);
    }
  }

  // ----- systems with one solution -----

  /** All equations hold where the columns have the values x. */
  ghost predicate SatisfiesAll(m: Lib, eqs: seq<Equation>, vars: seq<string>, x: Row) {
    |x| == |vars| && forall i | 0 <= i < |eqs| :: SatisfiedBy(m, eqs[i], Assignment(vars, x))
  }

  /** Exactly one assignment to the columns satisfies all equations. */
  ghost predicate OneAssignment(m: Lib, eqs: seq<Equation>, vars: seq<string>) {
    exists x: Row :: IsOnlyAssignment(m, eqs, vars, x)
  }

  ghost predicate IsOnlyAssignment(m: Lib, eqs: seq<Equation>, vars: seq<string>, x: Row) {
    SatisfiesAll(m, eqs, vars, x) && forall y: Row | SatisfiesAll(m, eqs, vars, y) :: y == x
  }

  /** Every assignment to the columns gives both sides of every equation a value. */
  ghost predicate DefinedThroughout(m: Lib, eqs: seq<Equation>, vars: seq<string>) {
    forall i, x: Row | 0 <= i < |eqs| && |x| == |vars| :: DefinedAt(m, eqs[i], Assignment(vars, x))
  }

  ghost predicate AllLinear(m: Lib, eqs: seq<Equation>, vars: seq<string>) {
    forall i | 0 <= i < |eqs| :: IsLinear(Difference(m, eqs[i]), vars)
  }

  lemma RowExists(m: Lib, eq: Equation, vars: seq<string>)
    ensures EquationRow(m, eq, vars).Ok? <==> IsLinear(Difference(m, eq), vars)
    ensures EquationRow(m, eq, vars).Err? ==> EquationRow(m, eq, vars) == Err(NON_LINEAR)
  {
    ExtractsExactly(Difference(m, eq), vars, 1.0, Linear(seq(|vars|, _ => 0.0), 0.0));
  }

  /** The rows of equations that are defined throughout have the solutions of the equations. */
  lemma RowsMeanEquations(m: Lib, eqs: seq<Equation>, vars: seq<string>, matrix: seq<Row>, rhs: Row, x: Row)
    requires Lawful(m) && forall i | 0 <= i < |eqs| :: ParsedEquation(eqs[i])
    requires RowsOf(m, eqs, vars, matrix, rhs) && |eqs| == |vars| && DefinedThroughout(m, eqs, vars)
    ensures Solves(Augment(matrix, rhs), x, |vars|) <==> SatisfiesAll(m, eqs, vars, x)
  {
    if |x| == |vars| {
      forall i | 0 <= i < |eqs|
        ensures Holds(Augment(matrix, rhs)[i], x, |vars|) <==> SatisfiedBy(m, eqs[i], Assignment(vars, x))
      {
        RowHolds(m, eqs, vars, matrix, rhs, x, i);
        EquationRowExact(m, eqs[i], vars, x);
      }
    }
  }

  /** So one solution of the rows is one assignment that satisfies all equations. */
  lemma SolvableExactly(m: Lib, eqs: seq<Equation>, vars: seq<string>)
    requires Lawful(m) && forall i | 0 <= i < |eqs| :: ParsedEquation(eqs[i])
    requires |eqs| == |vars|
    ensures HasUniqueSolution(m, eqs, vars) ==> AllLinear(m, eqs, vars)
    ensures DefinedThroughout(m, eqs, vars) ==>
              (HasUniqueSolution(m, eqs, vars) <==> AllLinear(m, eqs, vars) && OneAssignment(m, eqs, vars))
  {
    if HasUniqueSolution(m, eqs, vars) {
      var matrix, rhs, x :| RowsOf(m, eqs, vars, matrix, rhs) && UniqueSolution(Augment(matrix, rhs), x, |vars|);
      forall i | 0 <= i < |eqs| ensures IsLinear(Difference(m, eqs[i]), vars) {
        assert IsRowOf(m, eqs[i], vars, matrix[i], rhs[i]);
        RowExists(m, eqs[i], vars);
      }
      if DefinedThroughout(m, eqs, vars) {
        forall y: Row ensures Solves(Augment(matrix, rhs), y, |vars|) <==> SatisfiesAll(m, eqs, vars, y) {
          RowsMeanEquations(m, eqs, vars, matrix, rhs, y);
        }
        assert IsOnlyAssignment(m, eqs, vars, x);
      }
    }
    if DefinedThroughout(m, eqs, vars) && AllLinear(m, eqs, vars) && OneAssignment(m, eqs, vars) {
      var matrix, rhs := AllRows(m, eqs, vars);
      var x :| IsOnlyAssignment(m, eqs, vars, x);
      forall y: Row ensures Solves(Augment(matrix, rhs), y, |vars|) <==> SatisfiesAll(m, eqs, vars, y) {
        RowsMeanEquations(m, eqs, vars, matrix, rhs, y);
      }
      assert UniqueSolution(Augment(matrix, rhs), x, |vars|);
    }
  }

  lemma AllRows(m: Lib, eqs: seq<Equation>, vars: seq<string>) returns (matrix: seq<Row>, rhs: Row)
    requires AllLinear(m, eqs, vars)
    ensures RowsOf(m, eqs, vars, matrix, rhs)
  {
    forall i | 0 <= i < |eqs| ensures EquationRow(m, eqs[i], vars).Ok? {
      RowExists(m, eqs[i], vars);
    }
    matrix := seq(|eqs|, i requires 0 <= i < |eqs| => EquationRow(m, eqs[i], vars).value.row);
    rhs := seq(|eqs|, i requires 0 <= i < |eqs| => -EquationRow(m, eqs[i], vars).value.constant);
  }

  // ----- equations in standard form -----

  /** A variable, or its product with a literal. */
  predicate IsColumnTerm(e: Expr) {
    e.Var? || (e.Mul? && ((e.left.Num? && e.right.Var?) || (e.left.Var? && e.right.Num?)))
  }

  function TermVariable(e: Expr): string
    requires IsColumnTerm(e)
  {
    if e.Var? then e.name else if e.left.Num? then e.right.name else e.left.name
  }

  lemma TermFacts(m: Lib, env: Env, e: Expr)
    requires IsColumnTerm(e)
    ensures AllVars(e) == {TermVariable(e)}
    ensures TermVariable(e) in env ==> Strict(m, env, e).Some?
  {
    if e.Mul? {
      assert AllVars(e) == AllVars(e.left) + AllVars(e.right);
      assert Strict(m, env, e) == MulValues(Strict(m, env, e.left), Strict(m, env, e.right));
    }
  }

  /** A sum or difference of terms in different variables. */
  predicate IsColumnSum(e: Expr) {
    || IsColumnTerm(e)
    || ((e.Add? || e.Sub?) && IsColumnSum(e.left) && IsColumnTerm(e.right)
        && TermVariable(e.right) !in AllVars(e.left))
  }

  /** a*x + b*y + ... = c, every variable once. */
  predicate IsStandard(eq: Equation) {
    IsColumnSum(eq.0) && eq.1.Num?
  }

  /** What simplification makes of such a sum: 0, a term with or without a sign, a sum or a difference. */
  predicate IsTidy(m: Lib, e: Expr, vars: seq<string>, names: set<string>) {
    && IsLinear(e, vars) && Simplify(m, e) == e
    && (e == Num(0.0) || e.Add? || e.Sub? || IsTidyTerm(e, names) || (e.Neg? && IsTidyTerm(e.arg, names)))
  }

  predicate IsTidyTerm(e: Expr, names: set<string>) {
    IsColumnTerm(e) && TermVariable(e) in names
  }

  lemma {:induction false} TermTidied(m: Lib, e: Expr, vars: seq<string>)
    requires IsColumnTerm(e) && TermVariable(e) in vars
    ensures var r := Simplify(m, e);
            && IsLinear(r, vars) && Simplify(m, r) == r == FoldNumeric(m, r)
            && (r == Num(0.0) || IsTidyTerm(r, {TermVariable(e)}))
  {
    var x := Var(TermVariable(e));
    assert Simplify(m, x) == x == FoldNumeric(m, x);
    LiteralsStay(m, 0.0);
    if e.Mul? {
      var c := if e.left.Num? then e.left.n else e.right.n;
      LiteralsStay(m, c);
      MultipleFolded(m, x, c);
      ProductSimplified(m, e.left, e.right);
    }
  }

  lemma {:induction false} MultipleFolded(m: Lib, x: Expr, c: real)
    requires x.Var? && Simplify(m, x) == x && Simplify(m, Num(c)) == Num(c)
    ensures FoldNumeric(m, Mul(Num(c), x)) == Mul(Num(c), x) && FoldNumeric(m, Mul(x, Num(c))) == Mul(x, Num(c))
    ensures c != 0.0 && c != 1.0 ==>
              && MulRules(Num(c), x) == Mul(Num(c), x) == Simplify(m, Mul(Num(c), x))
              && MulRules(x, Num(c)) == Mul(x, Num(c)) == Simplify(m, Mul(x, Num(c)))
  {
    FoldedOperands(m, Num(c), x);
    FoldedOperands(m, x, Num(c));
    hide Simplify, FoldNumeric;
    ProductSimplified(m, Num(c), x);
    ProductSimplified(m, x, Num(c));
  }

  /** One more term in another variable. */
  lemma {:induction false} TidyStep(m: Lib, s: Expr, t: Expr, vars: seq<string>, names: set<string>, v: string)
    requires IsTidy(m, s, vars, names) && v !in names && IsLinear(t, vars)
    requires Simplify(m, t) == t == FoldNumeric(m, t) && (t == Num(0.0) || IsTidyTerm(t, {v}))
    requires FoldNumeric(m, s) == s
    ensures var r := FoldNumeric(m, AddRules(s, t)); IsTidy(m, r, vars, names + {v}) && FoldNumeric(m, r) == r
    ensures var r := FoldNumeric(m, SubRules(s, t)); IsTidy(m, r, vars, names + {v}) && FoldNumeric(m, r) == r
  {
    assert AddRules(s, t) == if s == Num(0.0) then t else if t == Num(0.0) then s else Add(s, t);
    assert SubRules(s, t) == if t == Num(0.0) then s else if s == Num(0.0) then Neg(t) else Sub(s, t);
    FoldedOperands(m, s, t);
    assert FoldNumeric(m, Neg(t)) == Neg(t);
    hide Simplify, FoldNumeric, AddRules, SubRules;
    SumSimplified(m, s, t);
    DifferenceSimplified(m, s, t);
    if t != Num(0.0) { NegatedTermStays(m, t); }
  }

  lemma {:induction false} NegatedTermStays(m: Lib, t: Expr)
    requires IsColumnTerm(t) && Simplify(m, t) == t && FoldNumeric(m, Neg(t)) == Neg(t)
    ensures Simplify(m, Neg(t)) == Neg(t)
  {
    hide Simplify, FoldNumeric;
    NegationSimplified(m, t);
  }

  lemma {:induction false} SumTidied(m: Lib, e: Expr, vars: seq<string>)
    requires IsColumnSum(e) && forall v | v in AllVars(e) :: v in vars
    ensures IsTidy(m, Simplify(m, e), vars, AllVars(e)) && FoldNumeric(m, Simplify(m, e)) == Simplify(m, e)
  {
    if IsColumnTerm(e) {
      TermFacts(m, map[], e);
      TermTidied(m, e, vars);
    } else {
      var v := TermVariable(e.right);
      TermFacts(m, map[], e.right);
      assert AllVars(e) == AllVars(e.left) + AllVars(e.right);
      SumTidied(m, e.left, vars);
      TermTidied(m, e.right, vars);
      hide Simplify, FoldNumeric;
      TidyStep(m, Simplify(m, e.left), Simplify(m, e.right), vars, AllVars(e.left), v);
      SumSimplified(m, e.left, e.right);
      DifferenceSimplified(m, e.left, e.right);
    }
  }

  /** An equation in standard form is extracted, and it is defined at every assignment to its variables. */
  lemma {:induction false} StandardIsLinear(m: Lib, eq: Equation, vars: seq<string>)
    requires IsStandard(eq) && forall v | v in AllVars(eq.0) :: v in vars
    ensures IsLinear(Difference(m, eq), vars)
  {
    var s := Simplify(m, eq.0);
    SumTidied(m, eq.0, vars);
    LiteralsStay(m, eq.1.n);
    FoldedOperands(m, s, eq.1);
    assert FoldNumeric(m, Neg(eq.1)) == Neg(Simplify(m, eq.1));
    LiteralsStay(m, 0.0);
    if s.Num? { LiteralsStay(m, s.n - eq.1.n); }
    hide Simplify, FoldNumeric;
    DifferenceSimplified(m, eq.0, eq.1);
  }

  lemma {:induction false} StandardVars(e: Expr)
    requires IsColumnSum(e)
    ensures NothingSkipped(e) && CollectedVars(e) == AllVars(e)
  {
    if !IsColumnTerm(e) { StandardVars(e.left); }
    VariablesFound(e);
  }

  lemma {:induction false} StandardDefined(m: Lib, env: Env, e: Expr)
    requires IsColumnSum(e) && forall v | v in AllVars(e) :: v in env
    ensures Strict(m, env, e).Some?
  {
    if IsColumnTerm(e) {
      TermFacts(m, env, e);
    } else {
      TermFacts(m, env, e.right);
      assert AllVars(e) == AllVars(e.left) + AllVars(e.right);
      StandardDefined(m, env, e.left);
    }
  }

  lemma StandardSystem(m: Lib, eqs: seq<Equation>, vars: seq<string>)
    requires forall i | 0 <= i < |eqs| :: IsStandard(eqs[i]) && HasColumns(eqs[i], vars)
    ensures AllLinear(m, eqs, vars) && DefinedThroughout(m, eqs, vars)
  {
    forall i | 0 <= i < |eqs| ensures IsLinear(Difference(m, eqs[i]), vars) {
      StandardVars(eqs[i].0);
      StandardIsLinear(m, eqs[i], vars);
    }
    forall i, x: Row | 0 <= i < |eqs| && |x| == |vars| ensures DefinedAt(m, eqs[i], Assignment(vars, x)) {
      StandardVars(eqs[i].0);
      StandardDefined(m, Assignment(vars, x), eqs[i].0);
    }
  }

  /** A variable that occurs twice can be missed: 3*x + 3*x = 0 simplifies to 2*(3*x), which is not extracted. */
  lemma RepeatedTermNotLinear(m: Lib, vars: seq<string>)
    ensures var t := Mul(Num(3.0), Var("x"));
            && Difference(m, (Add(t, t), Num(0.0))) == Mul(Num(2.0), t)
            && EquationRow(m, (Add(t, t), Num(0.0)), vars) == Err(NON_LINEAR)
  {
    var x, t := Var("x"), Mul(Num(3.0), Var("x"));
    var double := Mul(Num(2.0), t);
    LiteralsStay(m, 0.0); LiteralsStay(m, 2.0); LiteralsStay(m, 3.0);
    assert Simplify(m, x) == x;
    MultipleFolded(m, x, 3.0);
    FoldedOperands(m, Num(2.0), t);
    hide Simplify, FoldNumeric;
    SumSimplified(m, t, t);
    DifferenceSimplified(m, Add(t, t), Num(0.0));
    RowExists(m, (Add(t, t), Num(0.0)), vars);
  }

  /**
    The pipeline of `solve_system_str` on parsed equations. When it succeeds, the
    assignment it returns satisfies every equation that is defined there, no other
    assignment to its variables satisfies all equations, and what further variables are
    given does not matter to an equation out of which they cancel.
    */
  method SolveSystem(m: Lib, eqs: seq<Equation>) returns (r: Result<Solution, string>)
    requires Lawful(m) && forall i | 0 <= i < |eqs| :: ParsedEquation(eqs[i])
    ensures |eqs| == 0 ==> r == Err(NO_EQUATIONS)
    ensures |eqs| > 0 && |Columns(AllNames(eqs))| == 0 ==> r == Err(NO_VARIABLES)
    ensures 0 < |eqs| < |Columns(AllNames(eqs))| ==> r == Err(TOO_FEW)
    ensures |eqs| >= |Columns(AllNames(eqs))| > 0 && !AllLinear(m, eqs, Columns(AllNames(eqs))) ==> r == Err(NON_LINEAR)
    ensures DefinedThroughout(m, eqs, Columns(AllNames(eqs))) ==>
              (r.Ok? <==> && |eqs| == |Columns(AllNames(eqs))| > 0 && AllLinear(m, eqs, Columns(AllNames(eqs)))
                          && OneAssignment(m, eqs, Columns(AllNames(eqs))))
    ensures (forall i | 0 <= i < |eqs| :: IsStandard(eqs[i])) ==>
              (r.Ok? <==> |eqs| == |Columns(AllNames(eqs))| > 0 && OneAssignment(m, eqs, Columns(AllNames(eqs))))
    ensures r.Ok? <==> |eqs| == |Columns(AllNames(eqs))| > 0 && HasUniqueSolution(m, eqs, Columns(AllNames(eqs)))
    ensures r.Ok? ==> r.value.vars == Columns(AllNames(eqs))
    ensures r.Ok? ==> |r.value.values| == |r.value.vars| == |eqs|
    ensures r.Ok? ==>
              var env := Assignment(r.value.vars, r.value.values);
              forall i | 0 <= i < |eqs| && DefinedAt(m, eqs[i], env) :: SatisfiedBy(m, eqs[i], env)
    ensures r.Ok? ==>
              forall x: Row | |x| == |r.value.vars| && x != r.value.values ::
                exists i | 0 <= i < |eqs| :: !SatisfiedBy(m, eqs[i], Assignment(r.value.vars, x))
    ensures r.Ok? ==>
              forall i | 0 <= i < |eqs| && HiddenCancel(m, eqs[i], r.value.vars) ::
                HoldsThroughout(m, eqs[i], r.value.vars, r.value.values)
    ensures r.Ok? ==>
              forall i | 0 <= i < |eqs| && DefinedAtUnits(m, eqs[i], r.value.vars, r.value.values) ::
                HoldsThroughout(m, eqs[i], r.value.vars, r.value.values) <==> HiddenCancel(m, eqs[i], r.value.vars)
  {
    if |eqs| == 0 {
      return Err(NO_EQUATIONS);
    }
    var vars := Columns(AllNames(eqs));
    SystemSolvable(m, eqs);
    if |vars| == 0 {
      return Err(NO_VARIABLES);
    }
    if |eqs| < |vars| {
      return Err(TOO_FEW);
    }
    var system := BuildRows(m, eqs, vars);
    if system.Err? {
      return Err(system.error);
    }
    var (matrix, rhs) := system.value;
    RowsDetermineSolvability(m, eqs, vars, matrix, rhs);
    var solved := GaussianElimination(matrix, rhs);
    if solved.Err? {
      return Err(solved.error);
    }
    SolutionExact(m, eqs, vars, matrix, rhs, solved.value);
    return Ok(Solution(vars, solved.value));
  }

  lemma SystemSolvable(m: Lib, eqs: seq<Equation>)
    requires Lawful(m) && forall i | 0 <= i < |eqs| :: ParsedEquation(eqs[i])
    ensures var vars := Columns(AllNames(eqs));
            && (|eqs| == |vars| && HasUniqueSolution(m, eqs, vars) ==> AllLinear(m, eqs, vars))
            && (|eqs| == |vars| && DefinedThroughout(m, eqs, vars) ==>
                  (HasUniqueSolution(m, eqs, vars) <==> AllLinear(m, eqs, vars) && OneAssignment(m, eqs, vars)))
            && ((forall i | 0 <= i < |eqs| :: IsStandard(eqs[i])) ==>
                  AllLinear(m, eqs, vars) && DefinedThroughout(m, eqs, vars))
  {
    var vars := Columns(AllNames(eqs));
    if |eqs| == |vars| { SolvableExactly(m, eqs, vars); }
    if forall i | 0 <= i < |eqs| :: IsStandard(eqs[i]) {
      forall i | 0 <= i < |eqs| ensures HasColumns(eqs[i], vars) {
        assert HasColumns(eqs[i], AllNames(eqs));
      }
      StandardSystem(m, eqs, vars);
    }
  }

  /** The rows of all equations, or the failure to extract one. */
  method BuildRows(m: Lib, eqs: seq<Equation>, vars: seq<string>) returns (r: Result<(seq<Row>, Row), string>)
    ensures r.Ok? ==> RowsOf(m, eqs, vars, r.value.0, r.value.1)
    ensures r.Ok? <==> AllLinear(m, eqs, vars)
    ensures r.Err? ==> !HasUniqueSolution(m, eqs, vars) && r == Err(NON_LINEAR)
  {
    var matrix: seq<Row>, rhs: Row := [], [];
    for i := 0 to |eqs|
      invariant |matrix| == |rhs| == i
      invariant forall k | 0 <= k < i :: IsLinear(Difference(m, eqs[k]), vars)
      invariant forall k | 0 <= k < i :: IsRowOf(m, eqs[k], vars, matrix[k], rhs[k])
    {
      var row := EquationRow(m, eqs[i], vars);
      RowExists(m, eqs[i], vars);
      if row.Err? {
        NoRowNoSolution(m, eqs, vars, i);
        return Err(row.error);
      }
      matrix := matrix + [row.value.row];
      rhs := rhs + [-row.value.constant];
    }
    return Ok((matrix, rhs));
  }

  ghost predicate IsRowOf(m: Lib, eq: Equation, vars: seq<string>, row: Row, right: real) {
    |row| == |vars| && EquationRow(m, eq, vars) == Ok(Linear(row, -right))
  }

  /** The matrix and the right-hand side hold the row of every equation. */
  ghost predicate RowsOf(m: Lib, eqs: seq<Equation>, vars: seq<string>, matrix: seq<Row>, rhs: Row) {
    && |matrix| == |rhs| == |eqs|
    && forall k | 0 <= k < |eqs| :: IsRowOf(m, eqs[k], vars, matrix[k], rhs[k])
  }

  /** All equations have rows, and the rows have exactly one solution. */
  ghost predicate HasUniqueSolution(m: Lib, eqs: seq<Equation>, vars: seq<string>) {
    exists matrix: seq<Row>, rhs: Row, x: Row ::
      RowsOf(m, eqs, vars, matrix, rhs) && UniqueSolution(Augment(matrix, rhs), x, |vars|)
  }

  lemma NoRowNoSolution(m: Lib, eqs: seq<Equation>, vars: seq<string>, i: nat)
    requires i < |eqs| && EquationRow(m, eqs[i], vars).Err?
    ensures !HasUniqueSolution(m, eqs, vars)
  {
    forall matrix: seq<Row>, rhs: Row ensures !RowsOf(m, eqs, vars, matrix, rhs) {
      NotItsRow(m, eqs, vars, matrix, rhs, i);
    }
  }

  lemma NotItsRow(m: Lib, eqs: seq<Equation>, vars: seq<string>, matrix: seq<Row>, rhs: Row, i: nat)
    requires i < |eqs| && EquationRow(m, eqs[i], vars).Err?
    ensures !RowsOf(m, eqs, vars, matrix, rhs)
  {
    assert |matrix| == |rhs| == |eqs| ==> !IsRowOf(m, eqs[i], vars, matrix[i], rhs[i]);
  }

  /** The equations fix their rows, so one matrix decides whether there is exactly one solution. */
  lemma RowsDetermineSolvability(m: Lib, eqs: seq<Equation>, vars: seq<string>, matrix: seq<Row>, rhs: Row)
    requires RowsOf(m, eqs, vars, matrix, rhs)
    ensures HasUniqueSolution(m, eqs, vars) <==> exists x: Row :: UniqueSolution(Augment(matrix, rhs), x, |vars|)
  {
    if HasUniqueSolution(m, eqs, vars) {
      var matrix', rhs', x :| RowsOf(m, eqs, vars, matrix', rhs') && UniqueSolution(Augment(matrix', rhs'), x, |vars|);
      forall i | 0 <= i < |eqs| ensures matrix'[i] == matrix[i] && rhs'[i] == rhs[i] {
        assert IsRowOf(m, eqs[i], vars, matrix[i], rhs[i]) && IsRowOf(m, eqs[i], vars, matrix'[i], rhs'[i]);
      }
      assert matrix' == matrix && rhs' == rhs;
    }
  }

  /** A row of the augmented matrix holds exactly when the row of its equation does. */
  lemma RowHolds(m: Lib, eqs: seq<Equation>, vars: seq<string>, matrix: seq<Row>, rhs: Row, x: Row, i: nat)
    requires i < |eqs| && RowsOf(m, eqs, vars, matrix, rhs) && |x| == |vars|
    ensures EquationRow(m, eqs[i], vars).Ok?
    ensures Holds(Augment(matrix, rhs)[i], x, |vars|) <==> LinearValue(EquationRow(m, eqs[i], vars).value, x) == 0.0
  {
    assert IsRowOf(m, eqs[i], vars, matrix[i], rhs[i]);
    AugmentedRow(matrix[i], rhs[i], x, 0, |vars|);
  }

  lemma SolutionExact(m: Lib, eqs: seq<Equation>, vars: seq<string>, matrix: seq<Row>, rhs: Row, sol: Row)
    requires Lawful(m) && forall i | 0 <= i < |eqs| :: ParsedEquation(eqs[i])
    requires RowsOf(m, eqs, vars, matrix, rhs) && |eqs| == |vars|
    requires UniqueSolution(Augment(matrix, rhs), sol, |vars|)
    ensures forall i | 0 <= i < |eqs| && DefinedAt(m, eqs[i], Assignment(vars, sol)) ::
              SatisfiedBy(m, eqs[i], Assignment(vars, sol))
    ensures forall i | 0 <= i < |eqs| && HiddenCancel(m, eqs[i], vars) :: HoldsThroughout(m, eqs[i], vars, sol)
    ensures forall i | 0 <= i < |eqs| && DefinedAtUnits(m, eqs[i], vars, sol) ::
              HoldsThroughout(m, eqs[i], vars, sol) <==> HiddenCancel(m, eqs[i], vars)
    ensures forall x: Row | |x| == |vars| && x != sol ::
              exists i | 0 <= i < |eqs| :: !SatisfiedBy(m, eqs[i], Assignment(vars, x))
  {
    var aug, n := Augment(matrix, rhs), |vars|;
    forall i | 0 <= i < n
      ensures DefinedAt(m, eqs[i], Assignment(vars, sol)) ==> SatisfiedBy(m, eqs[i], Assignment(vars, sol))
      ensures HiddenCancel(m, eqs[i], vars) ==> HoldsThroughout(m, eqs[i], vars, sol)
      ensures DefinedAtUnits(m, eqs[i], vars, sol) ==>
                (HoldsThroughout(m, eqs[i], vars, sol) <==> HiddenCancel(m, eqs[i], vars))
    {
      assert Holds(aug[i], sol, n);
      RowHolds(m, eqs, vars, matrix, rhs, sol, i);
      if DefinedAt(m, eqs[i], Assignment(vars, sol)) { EquationRowExact(m, eqs[i], vars, sol); }
      ExtensionsExact(m, eqs[i], vars, sol);
    }
    forall x: Row | |x| == n && x != sol
      ensures exists i | 0 <= i < |eqs| :: !SatisfiedBy(m, eqs[i], Assignment(vars, x))
    {
      assert !Solves(aug, x, n);
      var i :| 0 <= i < n && !Holds(aug[i], x, n);
      OtherRowFails(m, eqs, vars, matrix, rhs, x, i);
    }
  }

  lemma OtherRowFails(m: Lib, eqs: seq<Equation>, vars: seq<string>, matrix: seq<Row>, rhs: Row, x: Row, i: nat)
    requires Lawful(m) && i < |eqs| && ParsedEquation(eqs[i])
    requires RowsOf(m, eqs, vars, matrix, rhs) && |x| == |vars| && !Holds(Augment(matrix, rhs)[i], x, |vars|)
    ensures !SatisfiedBy(m, eqs[i], Assignment(vars, x))
  {
    RowHolds(m, eqs, vars, matrix, rhs, x, i);
    if DefinedAt(m, eqs[i], Assignment(vars, x)) { EquationRowExact(m, eqs[i], vars, x); }
  }

  lemma {:induction false} AugmentedRow(row: Row, b: real, x: Row, k: nat, n: nat)
    requires |row| == n == |x| && k <= n
    ensures Dot(row + [b], x, k, n) == Dot(row, x, k, n)
    decreases n - k
  {
    if k < n { AugmentedRow(row, b, x, k + 1, n); }
  }

  /**
    A variable that occurs only in a quotient gets no column, and simplification can
    bring it out: x + y / 1 = 3 becomes the row x = 3 with y left over, and x = 3, y = 5
    does not satisfy it.
    */
  lemma QuotientHidesVariable(m: Lib)
    ensures
      var eq := (Add(Var("x"), Div(Var("y"), Num(1.0))), Num(3.0));
      && CollectedVars(eq.0) + CollectedVars(eq.1) == {"x"}
      && EquationRow(m, eq, ["x"]) == Ok(Linear([1.0], -3.0))
      && LinearValue(Linear([1.0], -3.0), [3.0]) == 0.0
      && !HiddenCancel(m, eq, ["x"]) && !HoldsThroughout(m, eq, ["x"], [3.0])
  {
    var eq := (Add(Var("x"), Div(Var("y"), Num(1.0))), Num(3.0));
    QuotientComesOut(m);
    ExtractsHalf();
    assert seq(|["x"]|, _ => 0.0) == [0.0];
    HiddenRemains(m, eq);
    UnsatisfiedExtension(m, eq);
  }

  lemma HiddenRemains(m: Lib, eq: Equation)
    requires Difference(m, eq) == Sub(Add(Var("x"), Var("y")), Num(3.0))
    ensures !HiddenCancel(m, eq, ["x"])
  {
    assert NetOccurrences(Add(Var("x"), Var("y")), "y") == 1;
    assert NetOccurrences(Difference(m, eq), "y") == 1;
  }

  lemma UnsatisfiedExtension(m: Lib, eq: Equation)
    requires eq == (Add(Var("x"), Div(Var("y"), Num(1.0))), Num(3.0))
    ensures !HoldsThroughout(m, eq, ["x"], [3.0])
  {
    var env: Env := map["x" := 3.0, "y" := 5.0];
    SumOfEight(m);
    assert Position(["x"], "x") == 0 && Extends(env, ["x"], [3.0]);
    assert Strict(m, env, eq.1) == Some(3.0);
    assert DefinedAt(m, eq, env) && !SatisfiedBy(m, eq, env);
  }

  lemma SumOfEight(m: Lib)
    ensures Strict(m, map["x" := 3.0, "y" := 5.0], Add(Var("x"), Div(Var("y"), Num(1.0)))) == Some(8.0)
  {
    var env: Env := map["x" := 3.0, "y" := 5.0];
    assert Strict(m, env, Var("x")) == Some(3.0) && Strict(m, env, Var("y")) == Some(5.0);
    assert Strict(m, env, Div(Var("y"), Num(1.0))) == Some(5.0);
  }

  lemma QuotientComesOut(m: Lib)
    ensures Simplify(m, Sub(Add(Var("x"), Div(Var("y"), Num(1.0))), Num(3.0))) ==
            Sub(Add(Var("x"), Var("y")), Num(3.0))
  {
    var quotient := Div(Var("y"), Num(1.0));
    SimplifiedLeaves(m);
    assert DivRules(Var("y"), Num(1.0)) == Var("y");
    assert Simplify(m, quotient) == FoldNumeric(m, Var("y")) == Var("y");
    SumMinusThree(m, quotient);
  }

  lemma SimplifiedLeaves(m: Lib)
    ensures Simplify(m, Var("x")) == Var("x") && Simplify(m, Var("y")) == Var("y")
    ensures Simplify(m, Num(1.0)) == Num(1.0) && Simplify(m, Num(3.0)) == Num(3.0)
  {
  }

  /**
    Definedness is needed for the converse in ExtensionsExact: with 0 * (1 / 0) added, the
    equation has the same difference, but is defined nowhere and so holds wherever it is.
    */
  lemma UndefinedHoldsThroughout(m: Lib)
    ensures
      var eq := (Add(Var("x"), Add(Div(Var("y"), Num(1.0)), Mul(Num(0.0), Div(Num(1.0), Num(0.0))))), Num(3.0));
      HoldsThroughout(m, eq, ["x"], [3.0]) && !HiddenCancel(m, eq, ["x"])
  {
    var pole := Mul(Num(0.0), Div(Num(1.0), Num(0.0)));
    var eq := (Add(Var("x"), Add(Div(Var("y"), Num(1.0)), pole)), Num(3.0));
    PoleDisappears(m, pole);
    HiddenRemains(m, eq);
    forall env: Env ensures !DefinedAt(m, eq, env) {
      PoleIsUndefined(m, env, pole);
    }
  }

  lemma PoleIsUndefined(m: Lib, env: Env, pole: Expr)
    requires pole == Mul(Num(0.0), Div(Num(1.0), Num(0.0)))
    ensures Strict(m, env, Add(Var("x"), Add(Div(Var("y"), Num(1.0)), pole))) == None
  {
    assert Strict(m, env, Num(0.0)) == Some(0.0);
    assert Strict(m, env, Div(Num(1.0), Num(0.0))) == None;
    assert Strict(m, env, pole) == None;
    assert Strict(m, env, Add(Div(Var("y"), Num(1.0)), pole)) == None;
  }

  lemma PoleDisappears(m: Lib, pole: Expr)
    requires pole == Mul(Num(0.0), Div(Num(1.0), Num(0.0)))
    ensures Difference(m, (Add(Var("x"), Add(Div(Var("y"), Num(1.0)), pole)), Num(3.0))) ==
            Sub(Add(Var("x"), Var("y")), Num(3.0))
  {
    var x, y, quotient := Var("x"), Var("y"), Div(Var("y"), Num(1.0));
    SimplifiedLeaves(m);
    assert Simplify(m, Num(0.0)) == Num(0.0);
    assert Simplify(m, pole) == FoldNumeric(m, MulRules(Num(0.0), Simplify(m, Div(Num(1.0), Num(0.0))))) == Num(0.0);
    assert DivRules(y, Num(1.0)) == y;
    assert Simplify(m, quotient) == FoldNumeric(m, y) == y;
    assert AddRules(y, Num(0.0)) == y;
    assert Simplify(m, Add(quotient, pole)) == FoldNumeric(m, y) == y;
    SumMinusThree(m, Add(quotient, pole));
  }

  lemma SumMinusThree(m: Lib, e: Expr)
    requires Simplify(m, e) == Var("y")
    ensures Simplify(m, Sub(Add(Var("x"), e), Num(3.0))) == Sub(Add(Var("x"), Var("y")), Num(3.0))
  {
    var sum := Add(Var("x"), Var("y"));
    SimplifiedLeaves(m);
    SumStaysPut(m);
    assert AddRules(Var("x"), Var("y")) == sum;
    assert Simplify(m, Add(Var("x"), e)) == FoldNumeric(m, sum);
    assert SubRules(sum, Num(3.0)) == Sub(sum, Num(3.0));
    assert FoldNumeric(m, Sub(sum, Num(3.0))) == Sub(sum, Num(3.0));
  }

  lemma SumStaysPut(m: Lib)
    ensures FoldNumeric(m, Add(Var("x"), Var("y"))) == Add(Var("x"), Var("y")) == Simplify(m, Add(Var("x"), Var("y")))
  {
    var x, y := Var("x"), Var("y");
    SimplifiedLeaves(m);
    assert AddRules(x, y) == Add(x, y);
    assert FoldNumeric(m, Add(x, y)) == Add(x, y);
  }

  lemma ExtractsHalf()
    ensures ExtractLinear(Sub(Add(Var("x"), Var("y")), Num(3.0)), ["x"], 1.0, Linear([0.0], 0.0)) ==
            Ok(Linear([1.0], -3.0))
    ensures LinearValue(Linear([1.0], -3.0), [3.0]) == 0.0
  {
    var zero := Linear([0.0], 0.0);
    assert Position(["x"], "x") == 0 && Position(["x"], "y") == 1;
    assert AddCoefficient(["x"], "x", 1.0, zero) == Linear([1.0], 0.0);
    assert ExtractLinear(Var("x"), ["x"], 1.0, zero) == Ok(Linear([1.0], 0.0));
    assert ExtractLinear(Var("y"), ["x"], 1.0, Linear([1.0], 0.0)) == Ok(Linear([1.0], 0.0));
    assert ExtractLinear(Add(Var("x"), Var("y")), ["x"], 1.0, zero) == Ok(Linear([1.0], 0.0));
    assert ExtractLinear(Num(3.0), ["x"], -1.0, Linear([1.0], 0.0)) == Ok(Linear([1.0], -3.0));
    assert Dot([1.0], [3.0], 1, 1) == 0.0;
    assert Dot([1.0], [3.0], 0, 1) == 3.0;
  }
}
