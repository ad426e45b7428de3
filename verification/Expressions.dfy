/**
  The symbolic expression tree and its numeric evaluation.

  Floating-point numbers are modelled as exact reals. A value the program would
  report as infinite or not-a-number (0 to a negative power, a fractional power of
  a negative number) is modelled as None, like the domain errors it reports itself.
  */
module Expressions {
  import opened Wrappers
  import opened RealFacts

  /** The thirteen unary functions of the engine. */
  datatype Func = Sin | Cos | Tan | Sqrt | Exp | Ln | Abs | Sinh | Cosh | Tanh | Asin | Acos | Atan

  datatype Expr =
    | Num(n: real)
    | Var(name: string)
    | Add(left: Expr, right: Expr)
    | Sub(left: Expr, right: Expr)
    | Mul(left: Expr, right: Expr)
    | Div(left: Expr, right: Expr)
    | Pow(base: Expr, exponent: Expr)
    | Neg(arg: Expr)
    | Fn(f: Func, arg: Expr)

  /**
    What the engine takes from its platform: the elementary functions, the two named
    constants, and the printed form it uses as a key when it groups like terms.
    */
  datatype Lib = Lib(fn: (Func, real) -> real, pi: real, euler: real, show: Expr -> string)

  type Env = map<string, real>

  ghost predicate LnUndoesExp(m: Lib, x: real) { m.fn(Ln, m.fn(Exp, x)) == x }
  ghost predicate ExpUndoesLn(m: Lib, x: real) { x > 0.0 ==> m.fn(Exp, m.fn(Ln, x)) == x }
  ghost predicate ExpIsPositive(m: Lib, x: real) { m.fn(Exp, x) > 0.0 }
  ghost predicate ExpOfSum(m: Lib, x: real, y: real) { m.fn(Exp, x + y) == Times(m.fn(Exp, x), m.fn(Exp, y)) }
  ghost predicate Pythagoras(m: Lib, x: real) {
    Times(m.fn(Sin, x), m.fn(Sin, x)) + Times(m.fn(Cos, x), m.fn(Cos, x)) == 1.0
  }

  ghost predicate SqrtLaw(m: Lib, x: real) { x >= 0.0 ==> Times(m.fn(Sqrt, x), m.fn(Sqrt, x)) == x }

  /** The facts about the elementary functions that the rewriting rules rest on. */
  ghost predicate Lawful(m: Lib) {
    && (forall x: real :: LnUndoesExp(m, x))
    && (forall x: real :: ExpUndoesLn(m, x))
    && (forall x: real :: ExpIsPositive(m, x))
    && (forall x: real, y: real :: ExpOfSum(m, x, y))
    && (forall x: real :: Pythagoras(m, x))
  }

  /** The argument test that evaluation and constant folding both make. */
  predicate InDomain(f: Func, x: real) {
    match f
    case Sqrt => x >= 0.0
    case Ln => x > 0.0
    case Asin => -1.0 <= x <= 1.0
    case Acos => -1.0 <= x <= 1.0
    case _ => true
  }

  function Apply(m: Lib, f: Func, x: real): real {
    if f == Abs then (if x < 0.0 then -x else x) else m.fn(f, x)
  }

  // ----- powers -----

  predicate IsInteger(x: real) {
    x == x.Floor as real
  }

  function NatPow(b: real, k: nat): real {
    if k == 0 then 1.0 else Times(b, NatPow(b, k - 1))
  }

  function IntPow(b: real, k: int): Option<real> {
    if k >= 0 then Some(NatPow(b, k))
    else if b == 0.0 then None
    else
      NatPowNonZero(b, -k);
      Some(1.0 / NatPow(b, -k))
  }

  lemma NatPowNonZero(b: real, k: nat)
    requires b != 0.0
    ensures NatPow(b, k) != 0.0
  {
    if k > 0 {
      NatPowNonZero(b, k - 1);
      ProductNonZero(b, NatPow(b, k - 1));
    }
  }

  function RealPow(m: Lib, b: real, e: real): real {
    m.fn(Exp, Times(e, m.fn(Ln, b)))
  }

  /** `powf`: exact on integer exponents, exp(e * ln b) otherwise. */
  function Powf(m: Lib, b: real, e: real): Option<real> {
    if IsInteger(e) then IntPow(b, e.Floor)
    else if b > 0.0 then Some(RealPow(m, b, e))
    else if b == 0.0 && e > 0.0 then Some(0.0)
    else None
  }

  // ----- evaluation -----

  function Lookup(m: Lib, env: Env, v: string): Option<real> {
    if v == "pi" then Some(m.pi)
    else if v == "e" then Some(m.euler)
    else if v in env then Some(env[v])
    else None
  }

  function AddValues(a: Option<real>, b: Option<real>): Option<real> {
    if a.Some? && b.Some? then Some(a.value + b.value) else None
  }

  function SubValues(a: Option<real>, b: Option<real>): Option<real> {
    if a.Some? && b.Some? then Some(a.value - b.value) else None
  }

  function MulValues(a: Option<real>, b: Option<real>): Option<real> {
    if a.Some? && b.Some? then Some(Times(a.value, b.value)) else None
  }

  function DivValues(a: Option<real>, b: Option<real>): Option<real> {
    if a.Some? && b.Some? && b.value != 0.0 then Some(a.value / b.value) else None
  }

  function PowValues(m: Lib, a: Option<real>, b: Option<real>): Option<real> {
    if a.Some? && b.Some? then Powf(m, a.value, b.value) else None
  }

  function NegValue(a: Option<real>): Option<real> {
    if a.Some? then Some(-a.value) else None
  }

  function FnValue(m: Lib, f: Func, a: Option<real>): Option<real> {
    if a.Some? && InDomain(f, a.value) then Some(Apply(m, f, a.value)) else None
  }

  /** `SymExpr::evaluate`. */
  function Evaluate(m: Lib, env: Env, e: Expr): Option<real> {
    match e
    case Num(n) => Some(n)
    case Var(v) => Lookup(m, env, v)
    case Add(a, b) => AddValues(Evaluate(m, env, a), Evaluate(m, env, b))
    case Sub(a, b) => SubValues(Evaluate(m, env, a), Evaluate(m, env, b))
    case Mul(a, b) => MulValues(Evaluate(m, env, a), Evaluate(m, env, b))
    case Div(a, b) => DivValues(Evaluate(m, env, a), Evaluate(m, env, b))
    case Pow(a, b) => PowValues(m, Evaluate(m, env, a), Evaluate(m, env, b))
    case Neg(a) => NegValue(Evaluate(m, env, a))
    case Fn(f, a) => FnValue(m, f, Evaluate(m, env, a))
  }

  /**
    Evaluation that leaves 0 to the power 0 undefined unless the exponent is written
    as a literal. It differs from `Evaluate` only there (see StrictAgrees), and it is
    exactly what the rewriting passes preserve.
    */
  function Strict(m: Lib, env: Env, e: Expr): Option<real> {
    match e
    case Num(n) => Some(n)
    case Var(v) => Lookup(m, env, v)
    case Add(a, b) => AddValues(Strict(m, env, a), Strict(m, env, b))
    case Sub(a, b) => SubValues(Strict(m, env, a), Strict(m, env, b))
    case Mul(a, b) => MulValues(Strict(m, env, a), Strict(m, env, b))
    case Div(a, b) => DivValues(Strict(m, env, a), Strict(m, env, b))
    case Pow(a, b) => StrictPow(m, Strict(m, env, a), Strict(m, env, b), b.Num?)
    case Neg(a) => NegValue(Strict(m, env, a))
    case Fn(f, a) => FnValue(m, f, Strict(m, env, a))
  }

  function StrictPow(m: Lib, a: Option<real>, b: Option<real>, literal: bool): Option<real> {
    if !literal && a == Some(0.0) && b == Some(0.0) then None else PowValues(m, a, b)
  }

  /** No subterm of `e` raises 0 to a power that is 0 without being a literal. */
  ghost predicate NoSymbolicZeroPower(m: Lib, env: Env, e: Expr) {
    match e
    case Num(_) => true
    case Var(_) => true
    case Add(a, b) => NoSymbolicZeroPower(m, env, a) && NoSymbolicZeroPower(m, env, b)
    case Sub(a, b) => NoSymbolicZeroPower(m, env, a) && NoSymbolicZeroPower(m, env, b)
    case Mul(a, b) => NoSymbolicZeroPower(m, env, a) && NoSymbolicZeroPower(m, env, b)
    case Div(a, b) => NoSymbolicZeroPower(m, env, a) && NoSymbolicZeroPower(m, env, b)
    case Pow(a, b) =>
      && NoSymbolicZeroPower(m, env, a) && NoSymbolicZeroPower(m, env, b)
      && (b.Num? || Evaluate(m, env, a) != Some(0.0) || Evaluate(m, env, b) != Some(0.0))
    case Neg(a) => NoSymbolicZeroPower(m, env, a)
    case Fn(_, a) => NoSymbolicZeroPower(m, env, a)
  }

  /** Every exponent in `e` is a literal, or a negated literal other than 0. */
  predicate FixedExponents(e: Expr) {
    match e
    case Num(_) => true
    case Var(_) => true
    case Add(a, b) => FixedExponents(a) && FixedExponents(b)
    case Sub(a, b) => FixedExponents(a) && FixedExponents(b)
    case Mul(a, b) => FixedExponents(a) && FixedExponents(b)
    case Div(a, b) => FixedExponents(a) && FixedExponents(b)
    case Pow(a, b) => FixedExponents(a) && (b.Num? || (b.Neg? && b.arg.Num? && b.arg.n != 0.0))
    case Neg(a) => FixedExponents(a)
    case Fn(_, a) => FixedExponents(a)
  }

  /** Strict evaluation is the program's evaluation with the symbolic 0^0 removed, and nothing else. */
  lemma {:induction false} StrictAgrees(m: Lib, env: Env, e: Expr)
    ensures Strict(m, env, e).Some? ==> Evaluate(m, env, e) == Strict(m, env, e)
    ensures Evaluate(m, env, e).Some? ==>
              (Strict(m, env, e) == Evaluate(m, env, e) <==> NoSymbolicZeroPower(m, env, e))
  {
    match e
    case Num(_) =>
    case Var(_) =>
    case Add(a, b) => StrictAgrees(m, env, a); StrictAgrees(m, env, b);
    case Sub(a, b) => StrictAgrees(m, env, a); StrictAgrees(m, env, b);
    case Mul(a, b) => StrictAgrees(m, env, a); StrictAgrees(m, env, b);
    case Div(a, b) => StrictAgrees(m, env, a); StrictAgrees(m, env, b);
    case Pow(a, b) => StrictAgrees(m, env, a); StrictAgrees(m, env, b);
    case Neg(a) => StrictAgrees(m, env, a);
    case Fn(_, a) => StrictAgrees(m, env, a);
  }

  /** A test on the tree alone that rules out the symbolic 0^0 at every assignment. */
  lemma {:induction false} FixedExponentsAgree(m: Lib, env: Env, e: Expr)
    requires FixedExponents(e)
    ensures Strict(m, env, e) == Evaluate(m, env, e)
  {
    match e
    case Num(_) =>
    case Var(_) =>
    case Add(a, b) => FixedExponentsAgree(m, env, a); FixedExponentsAgree(m, env, b);
    case Sub(a, b) => FixedExponentsAgree(m, env, a); FixedExponentsAgree(m, env, b);
    case Mul(a, b) => FixedExponentsAgree(m, env, a); FixedExponentsAgree(m, env, b);
    case Div(a, b) => FixedExponentsAgree(m, env, a); FixedExponentsAgree(m, env, b);
    case Pow(a, b) =>
      FixedExponentsAgree(m, env, a);
      if b.Neg? {
        assert Strict(m, env, b.arg) == Evaluate(m, env, b.arg) == Some(b.arg.n);
      }
    case Neg(a) => FixedExponentsAgree(m, env, a);
    case Fn(_, a) => FixedExponentsAgree(m, env, a);
  }

  // ----- refinement -----

  /** Wherever `a` has a (strict) value, `b` has the same one. */
  ghost predicate Refines(m: Lib, env: Env, a: Expr, b: Expr) {
    Strict(m, env, a).Some? ==> Strict(m, env, b) == Strict(m, env, a)
  }
}
