/** `chain_equations`: isolating a shared variable in one equation and substituting it into another. */
module Chaining {
  import opened Wrappers
  import opened Expressions
  import opened RealFacts
  import opened Powers

  // ----- substitution -----

  /** `substitute_var`. */
  function Substitute(e: Expr, v: string, r: Expr): Expr {
    match e
    case Num(_) => e
    case Var(w) => if w == v then r else e
    case Add(a, b) => Add(Substitute(a, v, r), Substitute(b, v, r))
    case Sub(a, b) => Sub(Substitute(a, v, r), Substitute(b, v, r))
    case Mul(a, b) => Mul(Substitute(a, v, r), Substitute(b, v, r))
    case Div(a, b) => Div(Substitute(a, v, r), Substitute(b, v, r))
    case Pow(a, b) => Pow(Substitute(a, v, r), Substitute(b, v, r))
    case Neg(a) => Neg(Substitute(a, v, r))
    case Fn(f, a) => Fn(f, Substitute(a, v, r))
  }

  /** Substitution is evaluation under the assignment that gives the variable the value of its replacement. */
  lemma {:induction false} SubstitutionIsUpdate(m: Lib, env: Env, e: Expr, v: string, r: Expr)
    requires v != "pi" && v != "e" && Evaluate(m, env, r).Some?
    ensures Evaluate(m, env, Substitute(e, v, r)) == Evaluate(m, env[v := Evaluate(m, env, r).value], e)
  {
    match e
    case Num(_) =>
    case Var(_) =>
    case Add(a, b) => SubstitutionIsUpdate(m, env, a, v, r); SubstitutionIsUpdate(m, env, b, v, r);
    case Sub(a, b) => SubstitutionIsUpdate(m, env, a, v, r); SubstitutionIsUpdate(m, env, b, v, r);
    case Mul(a, b) => SubstitutionIsUpdate(m, env, a, v, r); SubstitutionIsUpdate(m, env, b, v, r);
    case Div(a, b) => SubstitutionIsUpdate(m, env, a, v, r); SubstitutionIsUpdate(m, env, b, v, r);
    case Pow(a, b) => SubstitutionIsUpdate(m, env, a, v, r); SubstitutionIsUpdate(m, env, b, v, r);
    case Neg(a) => SubstitutionIsUpdate(m, env, a, v, r);
    case Fn(_, a) => SubstitutionIsUpdate(m, env, a, v, r);
  }

  /** Replacing a variable by an expression that has its value changes no value. */
  lemma {:induction false} SubstitutionKeepsValue(m: Lib, env: Env, e: Expr, v: string, r: Expr)
    requires Evaluate(m, env, r) == Lookup(m, env, v)
    ensures Evaluate(m, env, Substitute(e, v, r)) == Evaluate(m, env, e)
  {
    match e
    case Num(_) =>
    case Var(_) =>
    case Add(a, b) => SubstitutionKeepsValue(m, env, a, v, r); SubstitutionKeepsValue(m, env, b, v, r);
    case Sub(a, b) => SubstitutionKeepsValue(m, env, a, v, r); SubstitutionKeepsValue(m, env, b, v, r);
    case Mul(a, b) => SubstitutionKeepsValue(m, env, a, v, r); SubstitutionKeepsValue(m, env, b, v, r);
    case Div(a, b) => SubstitutionKeepsValue(m, env, a, v, r); SubstitutionKeepsValue(m, env, b, v, r);
    case Pow(a, b) => SubstitutionKeepsValue(m, env, a, v, r); SubstitutionKeepsValue(m, env, b, v, r);
    case Neg(a) => SubstitutionKeepsValue(m, env, a, v, r);
    case Fn(_, a) => SubstitutionKeepsValue(m, env, a, v, r);
  }

  // ----- isolation -----

  predicate ContainsVar(e: Expr, v: string) {
    match e
    case Num(_) => false
    case Var(w) => w == v
    case Add(a, b) => ContainsVar(a, v) || ContainsVar(b, v)
    case Sub(a, b) => ContainsVar(a, v) || ContainsVar(b, v)
    case Mul(a, b) => ContainsVar(a, v) || ContainsVar(b, v)
    case Div(a, b) => ContainsVar(a, v) || ContainsVar(b, v)
    case Pow(a, b) => ContainsVar(a, v) || ContainsVar(b, v)
    case Neg(a) => ContainsVar(a, v)
    case Fn(_, a) => ContainsVar(a, v)
  }

  /** The function that `isolate_var_in_expr` takes for the inverse; the last seven are passed over. */
  function Undone(f: Func, other: Expr): Expr {
    match f
    case Sin => Fn(Asin, other)
    case Cos => Fn(Acos, other)
    case Tan => Fn(Atan, other)
    case Ln => Fn(Exp, other)
    case Exp => Fn(Ln, other)
    case Sqrt => Pow(other, Num(2.0))
    case _ => other
  }

  /** `isolate_var_in_expr`. */
  function Isolate(target: Expr, other: Expr, v: string): Option<Expr>
    decreases target
  {
    if target == Var(v) then Some(other)
    else match target
      case Num(_) => None
      case Var(_) => None
      case Add(a, b) =>
        if ContainsVar(a, v) then Isolate(a, Sub(other, b), v) else Isolate(b, Sub(other, a), v)
      case Sub(a, b) =>
        if ContainsVar(a, v) then Isolate(a, Add(other, b), v) else Isolate(b, Sub(a, other), v)
      case Mul(a, b) =>
        if ContainsVar(a, v) then Isolate(a, Div(other, b), v) else Isolate(b, Div(other, a), v)
      case Div(a, b) =>
        if ContainsVar(a, v) then Isolate(a, Mul(other, b), v) else Isolate(b, Div(a, other), v)
      case Pow(a, b) =>
        if ContainsVar(a, v) then Isolate(a, Pow(other, Div(Num(1.0), b)), v)
        else Isolate(b, Div(Fn(Ln, other), Fn(Ln, a)), v)
      case Neg(a) => Isolate(a, Neg(other), v)
      case Fn(f, a) => Isolate(a, Undone(f, other), v)
  }

  // ----- when a step can be undone -----

  /** On their principal ranges the inverse functions undo sin, cos and tan. */
  ghost predicate PrincipalValues(m: Lib, x: real) {
    && (-m.pi / 2.0 <= x <= m.pi / 2.0 ==> m.fn(Asin, m.fn(Sin, x)) == x)
    && (0.0 <= x <= m.pi ==> m.fn(Acos, m.fn(Cos, x)) == x)
    && (-m.pi / 2.0 < x < m.pi / 2.0 ==> m.fn(Atan, m.fn(Tan, x)) == x)
    && (-1.0 <= x <= 1.0 ==> -m.pi / 2.0 <= m.fn(Asin, x) <= m.pi / 2.0)
    && (-1.0 <= x <= 1.0 ==> 0.0 <= m.fn(Acos, x) <= m.pi && m.fn(Cos, m.fn(Acos, x)) == x)
    && -m.pi / 2.0 < m.fn(Atan, x) < m.pi / 2.0
  }

  /** How the functions that isolation passes over compare with their arguments. */
  ghost predicate FarFromIdentity(m: Lib, x: real) {
    && (x > 0.0 ==> m.fn(Sinh, x) > x && m.fn(Tanh, x) < x && m.fn(Atan, x) < x)
    && (x < 0.0 ==> m.fn(Sinh, x) < x && m.fn(Tanh, x) > x && m.fn(Atan, x) > x)
    && (x == 0.0 ==> m.fn(Sinh, x) == m.fn(Tanh, x) == m.fn(Atan, x) == m.fn(Asin, x) == 0.0)
    && (0.0 < x <= 1.0 ==> m.fn(Asin, x) > x) && (-1.0 <= x < 0.0 ==> m.fn(Asin, x) < x)
    && m.fn(Cosh, x) > x
  }

  ghost predicate Invertible(m: Lib) {
    && Lawful(m) && m.pi > 3.0
    && (forall x: real :: SqrtLaw(m, x))
    && (forall x: real :: PrincipalValues(m, x))
    && (forall x: real :: FarFromIdentity(m, x))
  }

  predicate IsEven(e: real) {
    IsInteger(e) && e.Floor % 2 == 0
  }

  /** A power can be undone by the reciprocal power unless an even exponent hid the sign of the base. */
  ghost predicate RootRecovers(base: Option<real>, exponent: Option<real>) {
    base.Some? && exponent.Some? ==> !(base.value < 0.0 && IsEven(exponent.value))
  }

  /** The arguments that isolation gets back: those in the range of the inverse it takes. */
  ghost predicate FnRecovers(m: Lib, f: Func, arg: Option<real>) {
    arg.Some? ==>
      match f
      case Exp => true
      case Ln => true
      case Sqrt => true
      case Sin => -m.pi / 2.0 <= arg.value <= m.pi / 2.0
      case Cos => 0.0 <= arg.value <= m.pi
      case Tan => -m.pi / 2.0 < arg.value < m.pi / 2.0
      case Abs => arg.value >= 0.0
      case Cosh => false
      case Acos => 0.0 <= arg.value == m.fn(Cos, arg.value)
      case _ => arg.value == 0.0
  }

  /** Every operation on the path that isolation follows can be undone at this assignment. */
  ghost predicate Recoverable(m: Lib, env: Env, e: Expr, v: string) {
    match e
    case Num(_) => true
    case Var(_) => true
    case Add(a, b) => Recoverable(m, env, if ContainsVar(a, v) then a else b, v)
    case Sub(a, b) => Recoverable(m, env, if ContainsVar(a, v) then a else b, v)
    case Mul(a, b) => Recoverable(m, env, if ContainsVar(a, v) then a else b, v)
    case Div(a, b) => Recoverable(m, env, if ContainsVar(a, v) then a else b, v)
    case Pow(a, b) =>
      if ContainsVar(a, v) then RootRecovers(Evaluate(m, env, a), Evaluate(m, env, b)) && Recoverable(m, env, a, v)
      else Recoverable(m, env, b, v)
    case Neg(a) => Recoverable(m, env, a, v)
    case Fn(f, a) => FnRecovers(m, f, Evaluate(m, env, a)) && Recoverable(m, env, a, v)
  }

  /** A test on the tree alone: the path has only operations that can always be undone. */
  predicate InvertiblePath(e: Expr, v: string) {
    match e
    case Num(_) => true
    case Var(_) => true
    case Add(a, b) => InvertiblePath(if ContainsVar(a, v) then a else b, v)
    case Sub(a, b) => InvertiblePath(if ContainsVar(a, v) then a else b, v)
    case Mul(a, b) => InvertiblePath(if ContainsVar(a, v) then a else b, v)
    case Div(a, b) => InvertiblePath(if ContainsVar(a, v) then a else b, v)
    case Pow(a, b) =>
      if ContainsVar(a, v) then b.Num? && !IsEven(b.n) && InvertiblePath(a, v) else InvertiblePath(b, v)
    case Neg(a) => InvertiblePath(a, v)
    case Fn(f, a) => f in {Exp, Ln, Sqrt} && InvertiblePath(a, v)
  }

  lemma {:induction false} InvertiblePathRecoverable(m: Lib, env: Env, e: Expr, v: string)
    requires InvertiblePath(e, v)
    ensures Recoverable(m, env, e, v)
  {
    match e
    case Num(_) =>
    case Var(_) =>
    case Add(a, b) => InvertiblePathRecoverable(m, env, if ContainsVar(a, v) then a else b, v);
    case Sub(a, b) => InvertiblePathRecoverable(m, env, if ContainsVar(a, v) then a else b, v);
    case Mul(a, b) => InvertiblePathRecoverable(m, env, if ContainsVar(a, v) then a else b, v);
    case Div(a, b) => InvertiblePathRecoverable(m, env, if ContainsVar(a, v) then a else b, v);
    case Pow(a, b) => InvertiblePathRecoverable(m, env, if ContainsVar(a, v) then a else b, v);
    case Neg(a) => InvertiblePathRecoverable(m, env, a, v);
    case Fn(_, a) => InvertiblePathRecoverable(m, env, a, v);
  }

  // ----- the single steps -----

  lemma UndoProduct(x: real, y: real)
    requires y != 0.0
    ensures Times(x, y) / y == x && Times(y, x) / y == x && Times(x / y, y) == x
  {
  }

  lemma UndoQuotient(x: real, y: real)
    requires y != 0.0 && x / y != 0.0
    ensures x / (x / y) == y
  {
    var q := x / y;
    assert x == q * y;
  }

  lemma ReciprocalExponent(b: real, l: real)
    requires b != 0.0
    ensures Times(1.0 / b, Times(b, l)) == l
  {
    var c := 1.0 / b;
    assert c * b == 1.0;
    assert c * (b * l) == (c * b) * l;
  }

  lemma LnOfPower(m: Lib, b: real, e: real)
    requires Lawful(m) && b > 0.0
    ensures Powf(m, b, e) == Some(RealPow(m, b, e)) && RealPow(m, b, e) > 0.0
    ensures m.fn(Ln, RealPow(m, b, e)) == Times(e, m.fn(Ln, b))
  {
    PowfPositive(m, b, e);
    assert LnUndoesExp(m, Times(e, m.fn(Ln, b))) && ExpIsPositive(m, Times(e, m.fn(Ln, b)));
  }

  lemma RootOfPositive(m: Lib, b: real, e: real)
    requires Lawful(m) && b > 0.0 && e != 0.0
    ensures Powf(m, b, e).Some? && Powf(m, Powf(m, b, e).value, 1.0 / e) == Some(b)
  {
    LnOfPower(m, b, e);
    var y := RealPow(m, b, e);
    LnOfPower(m, y, 1.0 / e);
    ReciprocalExponent(e, m.fn(Ln, b));
    assert ExpUndoesLn(m, b);
  }

  lemma {:induction false} NatPowOfNegated(b: real, k: nat)
    ensures NatPow(-b, k) == if k % 2 == 0 then NatPow(b, k) else -NatPow(b, k)
  {
    if k > 0 {
      NatPowOfNegated(b, k - 1);
      TimesNegates(b, NatPow(b, k - 1));
      TimesNegates(b, -NatPow(b, k - 1));
      assert Times(b, -NatPow(b, k - 1)) == -Times(b, NatPow(b, k - 1));
    }
  }

  lemma IntPowOfNegated(b: real, k: int)
    requires b > 0.0
    ensures IntPow(b, k).Some? && IntPow(-b, k).Some?
    ensures IntPow(-b, k).value == if k % 2 == 0 then IntPow(b, k).value else -IntPow(b, k).value
  {
    if k >= 0 {
      NatPowOfNegated(b, k);
    } else {
      NatPowOfNegated(b, 0 - k);
      NatPowNonZero(b, 0 - k);
      NatPowNonZero(-b, 0 - k);
      NegatedReciprocal(NatPow(b, 0 - k));
    }
  }

  lemma NegatedReciprocal(x: real)
    requires x != 0.0
    ensures 1.0 / -x == -(1.0 / x) && 1.0 / (1.0 / x) == x
  {
    var r := 1.0 / x;
    assert r * x == 1.0;
    assert -r * -x == 1.0;
  }

  lemma SmallReciprocal(b: real)
    requires b >= 2.0 || b <= -2.0
    ensures 0.0 < 1.0 / b < 1.0 || -1.0 < 1.0 / b < 0.0
  {
    var r := 1.0 / b;
    assert r * b == 1.0;
  }

  lemma IntegerReciprocal(b: real)
    requires b != 0.0 && IsInteger(b) && IsInteger(1.0 / b)
    ensures b == 1.0 || b == -1.0
  {
    if b >= 2.0 || b <= -2.0 {
      SmallReciprocal(b);
    }
  }

  /** The reciprocal power of an odd power of a negative number is that number, or undefined. */
  lemma OddRoot(m: Lib, a: real, b: real)
    requires Lawful(m) && a < 0.0 && IsInteger(b) && !IsEven(b)
    requires Powf(m, a, b).Some? && Powf(m, Powf(m, a, b).value, 1.0 / b).Some?
    ensures Powf(m, Powf(m, a, b).value, 1.0 / b) == Some(a)
  {
    IntPowOfNegated(-a, b.Floor);
    LnOfPower(m, -a, b);
    var y := Powf(m, a, b).value;
    assert y < 0.0;
    IntegerReciprocal(b);
    if b == 1.0 {
      PowfSmall(m, a, 1.0);
    } else {
      MinusOneTwice(a);
    }
  }

  lemma MinusOneTwice(a: real)
    requires a != 0.0
    ensures IntPow(a, -1) == Some(1.0 / a) && IntPow(1.0 / a, -1) == Some(a)
  {
    NatPowNonZero(a, 1);
    assert NatPow(a, 1) == Times(a, NatPow(a, 0)) == a;
    var r := 1.0 / a;
    NegatedReciprocal(a);
    assert r != 0.0;
    NatPowNonZero(r, 1);
    assert NatPow(r, 1) == Times(r, NatPow(r, 0)) == r;
  }

  /** Raising to the reciprocal power gives the base back exactly when no even exponent hid its sign. */
  lemma RootStepExact(m: Lib, a: real, b: real)
    requires Lawful(m) && b != 0.0
    requires Powf(m, a, b).Some? && Powf(m, Powf(m, a, b).value, 1.0 / b).Some?
    ensures Powf(m, Powf(m, a, b).value, 1.0 / b) == Some(a) <==> !(a < 0.0 && IsEven(b))
  {
    if a > 0.0 {
      RootOfPositive(m, a, b);
    } else if a == 0.0 {
      PowfAtZero(m, b);
      assert b > 0.0 ==> 1.0 / b > 0.0;
      PowfAtZero(m, 1.0 / b);
    } else if IsEven(b) {
      IntPowOfNegated(-a, b.Floor);
      RootOfPositive(m, -a, b);
      assert Powf(m, a, b) == Powf(m, -a, b);
    } else {
      OddRoot(m, a, b);
    }
  }

  lemma ExponentStep(m: Lib, a: real, b: real)
    requires Lawful(m) && a > 0.0 && m.fn(Ln, a) != 0.0
    ensures Powf(m, a, b).Some? && Powf(m, a, b).value > 0.0
    ensures m.fn(Ln, Powf(m, a, b).value) / m.fn(Ln, a) == b
  {
    LnOfPower(m, a, b);
    UndoProduct(b, m.fn(Ln, a));
  }

  // ----- isolation is sound -----

  /** Isolation only ever wraps the other side. */
  lemma {:induction false} IsolateUsesOther(m: Lib, env: Env, target: Expr, other: Expr, v: string)
    requires Isolate(target, other, v).Some? && Evaluate(m, env, Isolate(target, other, v).value).Some?
    ensures Evaluate(m, env, other).Some?
    decreases target
  {
    if target != Var(v) {
      match target
      case Add(a, b) =>
        if ContainsVar(a, v) { IsolateUsesOther(m, env, a, Sub(other, b), v); }
        else { IsolateUsesOther(m, env, b, Sub(other, a), v); }
      case Sub(a, b) =>
        if ContainsVar(a, v) { IsolateUsesOther(m, env, a, Add(other, b), v); }
        else { IsolateUsesOther(m, env, b, Sub(a, other), v); }
      case Mul(a, b) =>
        if ContainsVar(a, v) { IsolateUsesOther(m, env, a, Div(other, b), v); }
        else { IsolateUsesOther(m, env, b, Div(other, a), v); }
      case Div(a, b) =>
        if ContainsVar(a, v) { IsolateUsesOther(m, env, a, Mul(other, b), v); }
        else { IsolateUsesOther(m, env, b, Div(a, other), v); }
      case Pow(a, b) =>
        if ContainsVar(a, v) {
          IsolateUsesOther(m, env, a, Pow(other, Div(Num(1.0), b)), v);
        } else {
          IsolateUsesOther(m, env, b, Div(Fn(Ln, other), Fn(Ln, a)), v);
          assert Evaluate(m, env, Fn(Ln, other)).Some?;
        }
      case Neg(a) => IsolateUsesOther(m, env, a, Neg(other), v);
      case Fn(f, a) => IsolateUsesOther(m, env, a, Undone(f, other), v);
    }
  }

  /** The two sides have the same value. */
  ghost predicate Holds(m: Lib, env: Env, left: Expr, right: Expr) {
    Evaluate(m, env, left).Some? && Evaluate(m, env, left) == Evaluate(m, env, right)
  }

  lemma SumStep(m: Lib, env: Env, a: Expr, b: Expr, other: Expr)
    ensures Holds(m, env, Add(a, b), other) ==>
              Holds(m, env, a, Sub(other, b)) && Holds(m, env, b, Sub(other, a))
    ensures Holds(m, env, Sub(a, b), other) ==>
              Holds(m, env, a, Add(other, b)) && Holds(m, env, b, Sub(a, other))
    ensures Holds(m, env, Neg(a), other) ==> Holds(m, env, a, Neg(other))
  {
  }

  lemma ProductStep(m: Lib, env: Env, a: Expr, b: Expr, other: Expr)
    requires Holds(m, env, Mul(a, b), other)
    ensures Evaluate(m, env, Div(other, b)).Some? ==> Holds(m, env, a, Div(other, b))
    ensures Evaluate(m, env, Div(other, a)).Some? ==> Holds(m, env, b, Div(other, a))
  {
    var x, y := Evaluate(m, env, a).value, Evaluate(m, env, b).value;
    if y != 0.0 { UndoProduct(x, y); }
    if x != 0.0 { UndoProduct(y, x); }
  }

  lemma QuotientStepHolds(m: Lib, env: Env, a: Expr, b: Expr, other: Expr)
    requires Holds(m, env, Div(a, b), other)
    ensures Holds(m, env, a, Mul(other, b))
    ensures Evaluate(m, env, Div(a, other)).Some? ==> Holds(m, env, b, Div(a, other))
  {
    var x, y := Evaluate(m, env, a).value, Evaluate(m, env, b).value;
    UndoProduct(x, y);
    if x / y != 0.0 { UndoQuotient(x, y); }
  }

  lemma BaseStep(m: Lib, env: Env, a: Expr, b: Expr, other: Expr)
    requires Lawful(m) && Holds(m, env, Pow(a, b), other)
    requires RootRecovers(Evaluate(m, env, a), Evaluate(m, env, b))
    requires Evaluate(m, env, Pow(other, Div(Num(1.0), b))).Some?
    ensures Holds(m, env, a, Pow(other, Div(Num(1.0), b)))
  {
    var x, y := Evaluate(m, env, a).value, Evaluate(m, env, b).value;
    assert Evaluate(m, env, Num(1.0)) == Some(1.0);
    assert y != 0.0 && Evaluate(m, env, Div(Num(1.0), b)) == Some(1.0 / y);
    RootStepExact(m, x, y);
  }

  lemma LogarithmStep(m: Lib, env: Env, a: Expr, b: Expr, other: Expr)
    requires Lawful(m) && Holds(m, env, Pow(a, b), other)
    requires Evaluate(m, env, Div(Fn(Ln, other), Fn(Ln, a))).Some?
    ensures Holds(m, env, b, Div(Fn(Ln, other), Fn(Ln, a)))
  {
    var x, y := Evaluate(m, env, a).value, Evaluate(m, env, b).value;
    assert Evaluate(m, env, Fn(Ln, a)) == Some(m.fn(Ln, x));
    ExponentStep(m, x, y);
  }

  /** Taking the inverse gives the argument back exactly on the range of that inverse. */
  lemma FunctionStepExact(m: Lib, env: Env, f: Func, a: Expr, other: Expr)
    requires Invertible(m) && Holds(m, env, Fn(f, a), other)
    requires Evaluate(m, env, Undone(f, other)).Some?
    ensures Holds(m, env, a, Undone(f, other)) <==> FnRecovers(m, f, Evaluate(m, env, a))
  {
    var x := Evaluate(m, env, a).value;
    if f in {Sin, Cos, Tan} {
      TrigonometricStep(m, f, x);
    } else if f == Sqrt {
      assert SqrtLaw(m, x);
      assert Evaluate(m, env, Num(2.0)) == Some(2.0);
      PowfSmall(m, m.fn(Sqrt, x), 2.0);
    } else if f in {Exp, Ln} {
      assert LnUndoesExp(m, x) && ExpUndoesLn(m, x);
    } else {
      PassedOverStep(m, f, x);
    }
  }

  lemma TrigonometricStep(m: Lib, f: Func, x: real)
    requires Invertible(m)
    ensures f == Sin ==> (m.fn(Asin, m.fn(Sin, x)) == x <==> FnRecovers(m, f, Some(x)))
    ensures f == Cos ==> (m.fn(Acos, m.fn(Cos, x)) == x <==> FnRecovers(m, f, Some(x)))
    ensures f == Tan ==> (m.fn(Atan, m.fn(Tan, x)) == x <==> FnRecovers(m, f, Some(x)))
  {
    BoundedByOne(m, x);
    assert PrincipalValues(m, x);
    assert PrincipalValues(m, m.fn(Sin, x)) && PrincipalValues(m, m.fn(Cos, x)) && PrincipalValues(m, m.fn(Tan, x));
  }

  lemma PassedOverStep(m: Lib, f: Func, x: real)
    requires Invertible(m) && InDomain(f, x) && f !in {Sin, Cos, Tan, Exp, Ln, Sqrt}
    ensures Apply(m, f, x) == x <==> FnRecovers(m, f, Some(x))
  {
    assert PrincipalValues(m, x) && FarFromIdentity(m, x);
    BoundedByOne(m, x);
  }

  lemma BoundedByOne(m: Lib, x: real)
    requires Lawful(m)
    ensures -1.0 <= m.fn(Sin, x) <= 1.0 && -1.0 <= m.fn(Cos, x) <= 1.0
  {
    assert Pythagoras(m, x);
    SquaresBound(m.fn(Sin, x), m.fn(Cos, x));
    SquaresBound(m.fn(Cos, x), m.fn(Sin, x));
  }

  lemma SquaresBound(s: real, c: real)
    requires Times(s, s) + Times(c, c) == 1.0
    ensures -1.0 <= s <= 1.0
  {
    SquarePositive(c);
    if s > 1.0 {
      LargeSquare(s);
    } else if s < -1.0 {
      OppositeSquares(s);
      LargeSquare(-s);
    }
  }

  lemma LargeSquare(s: real)
    requires s > 1.0
    ensures Times(s, s) > 1.0
  {
    PositiveProduct(s - 1.0, s + 1.0);
    assert (s - 1.0) * (s + 1.0) == s * s - 1.0;
  }

  /**
    Where target and other agree and the isolated expression is defined, it has the
    variable's value, provided every step on the path can be undone.
    */
  lemma {:induction false} IsolateRecovers(m: Lib, env: Env, target: Expr, other: Expr, v: string)
    requires Invertible(m) && Holds(m, env, target, other) && Recoverable(m, env, target, v)
    requires Isolate(target, other, v).Some? && Evaluate(m, env, Isolate(target, other, v).value).Some?
    ensures Evaluate(m, env, Isolate(target, other, v).value) == Lookup(m, env, v)
    decreases target
  {
    if target != Var(v) {
      match target
      case Add(a, b) =>
        SumStep(m, env, a, b, other);
        if ContainsVar(a, v) { IsolateRecovers(m, env, a, Sub(other, b), v); }
        else { IsolateRecovers(m, env, b, Sub(other, a), v); }
      case Sub(a, b) =>
        SumStep(m, env, a, b, other);
        if ContainsVar(a, v) { IsolateRecovers(m, env, a, Add(other, b), v); }
        else { IsolateRecovers(m, env, b, Sub(a, other), v); }
      case Mul(a, b) =>
        ProductStep(m, env, a, b, other);
        var side, rest := if ContainsVar(a, v) then a else b, if ContainsVar(a, v) then b else a;
        IsolateUsesOther(m, env, side, Div(other, rest), v);
        IsolateRecovers(m, env, side, Div(other, rest), v);
      case Div(a, b) =>
        QuotientStepHolds(m, env, a, b, other);
        if ContainsVar(a, v) {
          IsolateRecovers(m, env, a, Mul(other, b), v);
        } else {
          IsolateUsesOther(m, env, b, Div(a, other), v);
          IsolateRecovers(m, env, b, Div(a, other), v);
        }
      case Pow(a, b) =>
        if ContainsVar(a, v) {
          IsolateUsesOther(m, env, a, Pow(other, Div(Num(1.0), b)), v);
          BaseStep(m, env, a, b, other);
          IsolateRecovers(m, env, a, Pow(other, Div(Num(1.0), b)), v);
        } else {
          IsolateUsesOther(m, env, b, Div(Fn(Ln, other), Fn(Ln, a)), v);
          LogarithmStep(m, env, a, b, other);
          IsolateRecovers(m, env, b, Div(Fn(Ln, other), Fn(Ln, a)), v);
        }
      case Neg(a) =>
        SumStep(m, env, a, a, other);
        IsolateRecovers(m, env, a, Neg(other), v);
      case Fn(f, a) =>
        IsolateUsesOther(m, env, a, Undone(f, other), v);
        FunctionStepExact(m, env, f, a, other);
        IsolateRecovers(m, env, a, Undone(f, other), v);
    }
  }

  // ----- where the isolated expression has a value -----

  /** The root that isolation takes has a value. */
  predicate RootDefined(base: real, exponent: real) {
    exponent != 0.0 && (base >= 0.0 || IsEven(exponent) || exponent == 1.0 || exponent == -1.0)
  }

  /** No step on the path divides by 0, takes the zeroth root or the logarithm to an impossible base. */
  ghost predicate PathDefined(m: Lib, env: Env, e: Expr, v: string) {
    match e
    case Num(_) => true
    case Var(_) => true
    case Add(a, b) => PathDefined(m, env, if ContainsVar(a, v) then a else b, v)
    case Sub(a, b) => PathDefined(m, env, if ContainsVar(a, v) then a else b, v)
    case Mul(a, b) =>
      if ContainsVar(a, v) then Evaluate(m, env, b) != Some(0.0) && PathDefined(m, env, a, v)
      else Evaluate(m, env, a) != Some(0.0) && PathDefined(m, env, b, v)
    case Div(a, b) =>
      if ContainsVar(a, v) then PathDefined(m, env, a, v)
      else Evaluate(m, env, a) != Some(0.0) && PathDefined(m, env, b, v)
    case Pow(a, b) =>
      && Evaluate(m, env, a).Some? && Evaluate(m, env, b).Some?
      && if ContainsVar(a, v) then
           RootDefined(Evaluate(m, env, a).value, Evaluate(m, env, b).value) && PathDefined(m, env, a, v)
         else
           && Evaluate(m, env, a).value > 0.0 && m.fn(Ln, Evaluate(m, env, a).value) != 0.0
           && PathDefined(m, env, b, v)
    case Neg(a) => PathDefined(m, env, a, v)
    case Fn(_, a) => PathDefined(m, env, a, v)
  }

  /** Where a power has a value, the root of it has one exactly under the condition. */
  lemma RootDefinedExactly(m: Lib, a: real, b: real)
    requires Lawful(m) && Powf(m, a, b).Some? && b != 0.0
    ensures Powf(m, Powf(m, a, b).value, 1.0 / b).Some? <==> RootDefined(a, b)
  {
    if a > 0.0 {
      RootOfPositive(m, a, b);
    } else if a == 0.0 {
      PowfAtZero(m, b);
      assert b > 0.0 ==> 1.0 / b > 0.0;
      PowfAtZero(m, 1.0 / b);
    } else {
      IntPowOfNegated(-a, b.Floor);
      LnOfPower(m, -a, b);
      RootOfPositive(m, -a, b);
      if !IsEven(b) {
        assert Powf(m, a, b).value < 0.0;
        if IsInteger(1.0 / b) { IntegerReciprocal(b); }
        if b == 1.0 { assert 1.0 / b == 1.0; }
        if b == -1.0 { assert 1.0 / b == -1.0; }
      }
    }
  }

  /** The other side after one step has a value where the equation holds, exactly under that step's condition. */
  lemma ProductSideDefined(m: Lib, env: Env, other: Expr, rest: Expr)
    requires Evaluate(m, env, other).Some? && Evaluate(m, env, rest).Some?
    ensures Evaluate(m, env, Div(other, rest)).Some? <==> Evaluate(m, env, rest) != Some(0.0)
  {
  }

  lemma DivisorSideDefined(m: Lib, env: Env, a: Expr, b: Expr, other: Expr)
    requires Holds(m, env, Div(a, b), other)
    ensures Evaluate(m, env, Div(a, other)).Some? <==> Evaluate(m, env, a) != Some(0.0)
  {
    var x, y := Evaluate(m, env, a).value, Evaluate(m, env, b).value;
    UndoProduct(x, y);
    assert x == 0.0 ==> x / y == 0.0;
  }

  lemma BaseSideDefined(m: Lib, env: Env, a: Expr, b: Expr, other: Expr)
    requires Lawful(m) && Holds(m, env, Pow(a, b), other)
    ensures Evaluate(m, env, a).Some? && Evaluate(m, env, b).Some?
    ensures Evaluate(m, env, Pow(other, Div(Num(1.0), b))).Some? <==>
            RootDefined(Evaluate(m, env, a).value, Evaluate(m, env, b).value)
  {
    var x, y := Evaluate(m, env, a).value, Evaluate(m, env, b).value;
    assert Evaluate(m, env, Num(1.0)) == Some(1.0);
    if y != 0.0 {
      assert Evaluate(m, env, Div(Num(1.0), b)) == Some(1.0 / y);
      RootDefinedExactly(m, x, y);
    }
  }

  lemma ExponentSideDefined(m: Lib, env: Env, a: Expr, b: Expr, other: Expr)
    requires Lawful(m) && Holds(m, env, Pow(a, b), other)
    ensures Evaluate(m, env, a).Some? && Evaluate(m, env, b).Some?
    ensures Evaluate(m, env, Div(Fn(Ln, other), Fn(Ln, a))).Some? <==>
            Evaluate(m, env, a).value > 0.0 && m.fn(Ln, Evaluate(m, env, a).value) != 0.0
  {
    var x := Evaluate(m, env, a).value;
    if x > 0.0 { LnOfPower(m, x, Evaluate(m, env, b).value); }
    assert Evaluate(m, env, Fn(Ln, a)) == FnValue(m, Ln, Some(x));
    assert Evaluate(m, env, Fn(Ln, other)) == FnValue(m, Ln, Evaluate(m, env, other));
  }

  lemma FunctionSideDefined(m: Lib, env: Env, f: Func, a: Expr, other: Expr)
    requires Invertible(m) && Holds(m, env, Fn(f, a), other)
    ensures Evaluate(m, env, Undone(f, other)).Some?
  {
    var x := Evaluate(m, env, a).value;
    BoundedByOne(m, x);
    assert ExpIsPositive(m, x) && Evaluate(m, env, Num(2.0)) == Some(2.0);
    if f == Sqrt { PowfSmall(m, m.fn(Sqrt, x), 2.0); }
  }

  /**
    Where target and other agree and every step on the path can be undone, the isolated
    expression has a value exactly when no step of the path is impossible, and then it is
    the value of the variable.
    */
  lemma {:induction false} IsolateDefinedExactly(m: Lib, env: Env, target: Expr, other: Expr, v: string)
    requires Invertible(m) && Holds(m, env, target, other) && Recoverable(m, env, target, v)
    requires Isolate(target, other, v).Some?
    ensures Evaluate(m, env, Isolate(target, other, v).value).Some? <==> PathDefined(m, env, target, v)
    ensures PathDefined(m, env, target, v) ==>
              Evaluate(m, env, Isolate(target, other, v).value) == Lookup(m, env, v)
    decreases target
  {
    if target != Var(v) {
      match target
      case Add(a, b) =>
        SumStep(m, env, a, b, other);
        if ContainsVar(a, v) { IsolateDefinedExactly(m, env, a, Sub(other, b), v); }
        else { IsolateDefinedExactly(m, env, b, Sub(other, a), v); }
      case Sub(a, b) =>
        SumStep(m, env, a, b, other);
        if ContainsVar(a, v) { IsolateDefinedExactly(m, env, a, Add(other, b), v); }
        else { IsolateDefinedExactly(m, env, b, Sub(a, other), v); }
      case Mul(a, b) =>
        ProductStep(m, env, a, b, other);
        var side, rest := if ContainsVar(a, v) then a else b, if ContainsVar(a, v) then b else a;
        ProductSideDefined(m, env, other, rest);
        NextIsDefined(m, env, side, Div(other, rest), v);
        if Evaluate(m, env, Div(other, rest)).Some? { IsolateDefinedExactly(m, env, side, Div(other, rest), v); }
      case Div(a, b) =>
        QuotientStepHolds(m, env, a, b, other);
        if ContainsVar(a, v) {
          IsolateDefinedExactly(m, env, a, Mul(other, b), v);
        } else {
          DivisorSideDefined(m, env, a, b, other);
          NextIsDefined(m, env, b, Div(a, other), v);
          if Evaluate(m, env, Div(a, other)).Some? { IsolateDefinedExactly(m, env, b, Div(a, other), v); }
        }
      case Pow(a, b) => PowerDefinedExactly(m, env, a, b, other, v);
      case Neg(a) =>
        SumStep(m, env, a, a, other);
        IsolateDefinedExactly(m, env, a, Neg(other), v);
      case Fn(f, a) =>
        FunctionSideDefined(m, env, f, a, other);
        FunctionStepExact(m, env, f, a, other);
        IsolateDefinedExactly(m, env, a, Undone(f, other), v);
    }
  }

  lemma NextIsDefined(m: Lib, env: Env, target: Expr, other: Expr, v: string)
    requires Isolate(target, other, v).Some?
    ensures Evaluate(m, env, Isolate(target, other, v).value).Some? ==> Evaluate(m, env, other).Some?
  {
    if Evaluate(m, env, Isolate(target, other, v).value).Some? { IsolateUsesOther(m, env, target, other, v); }
  }

  lemma {:induction false} PowerDefinedExactly(m: Lib, env: Env, a: Expr, b: Expr, other: Expr, v: string)
    requires Invertible(m) && Holds(m, env, Pow(a, b), other) && Recoverable(m, env, Pow(a, b), v)
    requires Isolate(Pow(a, b), other, v).Some?
    ensures Evaluate(m, env, Isolate(Pow(a, b), other, v).value).Some? <==> PathDefined(m, env, Pow(a, b), v)
    ensures PathDefined(m, env, Pow(a, b), v) ==>
              Evaluate(m, env, Isolate(Pow(a, b), other, v).value) == Lookup(m, env, v)
    decreases Pow(a, b), 0
  {
    if ContainsVar(a, v) {
      var root := Pow(other, Div(Num(1.0), b));
      BaseSideDefined(m, env, a, b, other);
      NextIsDefined(m, env, a, root, v);
      if Evaluate(m, env, root).Some? {
        BaseStep(m, env, a, b, other);
        IsolateDefinedExactly(m, env, a, root, v);
      }
    } else {
      var log := Div(Fn(Ln, other), Fn(Ln, a));
      ExponentSideDefined(m, env, a, b, other);
      NextIsDefined(m, env, b, log, v);
      if Evaluate(m, env, log).Some? {
        LogarithmStep(m, env, a, b, other);
        IsolateDefinedExactly(m, env, b, log, v);
      }
    }
  }

  /** Isolation succeeds exactly when the variable occurs. */
  lemma {:induction false} IsolateSucceeds(target: Expr, other: Expr, v: string)
    ensures Isolate(target, other, v).Some? <==> ContainsVar(target, v)
    decreases target
  {
    match target
    case Num(_) =>
    case Var(_) =>
    case Add(a, b) => IsolateSucceeds(a, Sub(other, b), v); IsolateSucceeds(b, Sub(other, a), v);
    case Sub(a, b) => IsolateSucceeds(a, Add(other, b), v); IsolateSucceeds(b, Sub(a, other), v);
    case Mul(a, b) => IsolateSucceeds(a, Div(other, b), v); IsolateSucceeds(b, Div(other, a), v);
    case Div(a, b) => IsolateSucceeds(a, Mul(other, b), v); IsolateSucceeds(b, Div(a, other), v);
    case Pow(a, b) =>
      IsolateSucceeds(a, Pow(other, Div(Num(1.0), b)), v);
      IsolateSucceeds(b, Div(Fn(Ln, other), Fn(Ln, a)), v);
    case Neg(a) => IsolateSucceeds(a, Neg(other), v);
    case Fn(f, a) => IsolateSucceeds(a, Undone(f, other), v);
  }

  function Occurrences(e: Expr, v: string): (n: nat)
    ensures n > 0 <==> ContainsVar(e, v)
  {
    match e
    case Num(_) => 0
    case Var(w) => if w == v then 1 else 0
    case Add(a, b) => Occurrences(a, v) + Occurrences(b, v)
    case Sub(a, b) => Occurrences(a, v) + Occurrences(b, v)
    case Mul(a, b) => Occurrences(a, v) + Occurrences(b, v)
    case Div(a, b) => Occurrences(a, v) + Occurrences(b, v)
    case Pow(a, b) => Occurrences(a, v) + Occurrences(b, v)
    case Neg(a) => Occurrences(a, v)
    case Fn(_, a) => Occurrences(a, v)
  }

  /** A variable that occurs once, and not on the other side, does not occur in what it is isolated to. */
  lemma {:induction false} IsolateEliminates(target: Expr, other: Expr, v: string)
    requires Occurrences(target, v) == 1 && !ContainsVar(other, v)
    ensures Isolate(target, other, v).Some? && !ContainsVar(Isolate(target, other, v).value, v)
    decreases target
  {
    match target
    case Num(_) =>
    case Var(_) =>
    case Add(a, b) =>
      if ContainsVar(a, v) { IsolateEliminates(a, Sub(other, b), v); } else { IsolateEliminates(b, Sub(other, a), v); }
    case Sub(a, b) =>
      if ContainsVar(a, v) { IsolateEliminates(a, Add(other, b), v); } else { IsolateEliminates(b, Sub(a, other), v); }
    case Mul(a, b) =>
      if ContainsVar(a, v) { IsolateEliminates(a, Div(other, b), v); } else { IsolateEliminates(b, Div(other, a), v); }
    case Div(a, b) =>
      if ContainsVar(a, v) { IsolateEliminates(a, Mul(other, b), v); } else { IsolateEliminates(b, Div(a, other), v); }
    case Pow(a, b) =>
      assert !ContainsVar(Num(1.0), v);
      assert ContainsVar(Div(Num(1.0), b), v) == ContainsVar(b, v);
      if ContainsVar(a, v) { IsolateEliminates(a, Pow(other, Div(Num(1.0), b)), v); }
      else {
        assert !ContainsVar(Fn(Ln, other), v) && !ContainsVar(Fn(Ln, a), v);
        IsolateEliminates(b, Div(Fn(Ln, other), Fn(Ln, a)), v);
      }
    case Neg(a) => IsolateEliminates(a, Neg(other), v);
    case Fn(f, a) => IsolateEliminates(a, Undone(f, other), v);
  }

  lemma {:induction false} SubstitutionEliminates(e: Expr, v: string, r: Expr)
    requires !ContainsVar(r, v)
    ensures !ContainsVar(Substitute(e, v, r), v)
  {
    match e
    case Num(_) =>
    case Var(_) =>
    case Add(a, b) => SubstitutionEliminates(a, v, r); SubstitutionEliminates(b, v, r);
    case Sub(a, b) => SubstitutionEliminates(a, v, r); SubstitutionEliminates(b, v, r);
    case Mul(a, b) => SubstitutionEliminates(a, v, r); SubstitutionEliminates(b, v, r);
    case Div(a, b) => SubstitutionEliminates(a, v, r); SubstitutionEliminates(b, v, r);
    case Pow(a, b) => SubstitutionEliminates(a, v, r); SubstitutionEliminates(b, v, r);
    case Neg(a) => SubstitutionEliminates(a, v, r);
    case Fn(_, a) => SubstitutionEliminates(a, v, r);
  }

  // ----- chaining -----

  datatype Equation = Equation(lhs: Expr, rhs: Expr)

  ghost predicate Satisfies(m: Lib, env: Env, eq: Equation) {
    Holds(m, env, eq.lhs, eq.rhs)
  }

  /** `collect_variables`: the names of e that are not in the list yet, in order of appearance. */
  function CollectVariables(e: Expr, seen: seq<string>): (r: seq<string>)
    ensures forall v :: v in r <==> v in seen || ContainsVar(e, v)
  {
    match e
    case Num(_) => seen
    case Var(v) => if v in seen then seen else seen + [v]
    case Add(a, b) => CollectVariables(b, CollectVariables(a, seen))
    case Sub(a, b) => CollectVariables(b, CollectVariables(a, seen))
    case Mul(a, b) => CollectVariables(b, CollectVariables(a, seen))
    case Div(a, b) => CollectVariables(b, CollectVariables(a, seen))
    case Pow(a, b) => CollectVariables(b, CollectVariables(a, seen))
    case Neg(a) => CollectVariables(a, seen)
    case Fn(_, a) => CollectVariables(a, seen)
  }

  function VariablesOf(eq: Equation): (r: seq<string>)
    ensures forall v :: v in r <==> ContainsVar(eq.lhs, v) || ContainsVar(eq.rhs, v)
  {
    CollectVariables(eq.rhs, CollectVariables(eq.lhs, []))
  }

  function FirstShared(vs: seq<string>, ws: seq<string>): (r: Option<string>)
    ensures r.Some? ==> r.value in vs && r.value in ws
    ensures r.None? ==> forall v | v in vs :: v !in ws
  {
    if vs == [] then None
    else if vs[0] in ws then Some(vs[0])
    else FirstShared(vs[1..], ws)
  }

  /** The shared variable that is eliminated. */
  function SharedVariable(eq1: Equation, eq2: Equation): Option<string> {
    FirstShared(VariablesOf(eq1), VariablesOf(eq2))
  }

  /** The variables of an expression as they are read from left to right. */
  function Reading(e: Expr): seq<string> {
    match e
    case Num(_) => []
    case Var(v) => [v]
    case Add(a, b) => Reading(a) + Reading(b)
    case Sub(a, b) => Reading(a) + Reading(b)
    case Mul(a, b) => Reading(a) + Reading(b)
    case Div(a, b) => Reading(a) + Reading(b)
    case Pow(a, b) => Reading(a) + Reading(b)
    case Neg(a) => Reading(a)
    case Fn(_, a) => Reading(a)
  }

  /** Collecting changes nothing about which name of a list comes first in the reading. */
  lemma {:induction false} CollectedFirst(e: Expr, seen: seq<string>, ws: seq<string>)
    ensures FirstShared(CollectVariables(e, seen), ws) == FirstShared(seen + Reading(e), ws)
    decreases e
  {
    match e
    case Num(_) => assert seen + [] == seen;
    case Var(v) => if v in seen { FirstOfTwo(seen, [v], ws); }
    case Add(a, b) => CollectedFirstOfTwo(e, a, b, seen, ws);
    case Sub(a, b) => CollectedFirstOfTwo(e, a, b, seen, ws);
    case Mul(a, b) => CollectedFirstOfTwo(e, a, b, seen, ws);
    case Div(a, b) => CollectedFirstOfTwo(e, a, b, seen, ws);
    case Pow(a, b) => CollectedFirstOfTwo(e, a, b, seen, ws);
    case Neg(a) => CollectedFirst(a, seen, ws);
    case Fn(_, a) => CollectedFirst(a, seen, ws);
  }

  lemma {:induction false} CollectedFirstOfTwo(e: Expr, a: Expr, b: Expr, seen: seq<string>, ws: seq<string>)
    requires a < e && b < e
    ensures FirstShared(CollectVariables(b, CollectVariables(a, seen)), ws) ==
            FirstShared(seen + (Reading(a) + Reading(b)), ws)
    decreases e, 0
  {
    CollectedFirst(b, CollectVariables(a, seen), ws);
    CollectedFirst(a, seen, ws);
    FirstOfTwo(CollectVariables(a, seen), Reading(b), ws);
    FirstOfTwo(seen + Reading(a), Reading(b), ws);
    assert seen + (Reading(a) + Reading(b)) == (seen + Reading(a)) + Reading(b);
  }

  lemma {:induction false} FirstOfTwo(a: seq<string>, b: seq<string>, ws: seq<string>)
    ensures FirstShared(a + b, ws) == if FirstShared(a, ws).Some? then FirstShared(a, ws) else FirstShared(b, ws)
  {
    if a == [] {
      assert a + b == b;
    } else {
      assert (a + b)[0] == a[0] && (a + b)[1..] == a[1..] + b;
      FirstOfTwo(a[1..], b, ws);
    }
  }

  lemma {:induction false} FirstSharedIsFirst(vs: seq<string>, ws: seq<string>, i: nat)
    requires i < |vs| && vs[i] in ws && forall j | 0 <= j < i :: vs[j] !in ws
    ensures FirstShared(vs, ws) == Some(vs[i])
  {
    if i > 0 {
      assert vs[0] !in ws;
      forall j | 0 <= j < i - 1 ensures vs[1..][j] !in ws { assert vs[1..][j] == vs[j + 1]; }
      FirstSharedIsFirst(vs[1..], ws, i - 1);
    }
  }

  /** The eliminated variable is the first one, reading the first equation, that the second one contains. */
  lemma SharedIsFirstRead(eq1: Equation, eq2: Equation, i: nat)
    requires var text := Reading(eq1.lhs) + Reading(eq1.rhs);
             && i < |text| && text[i] in VariablesOf(eq2) && forall j | 0 <= j < i :: text[j] !in VariablesOf(eq2)
    ensures SharedVariable(eq1, eq2) == Some((Reading(eq1.lhs) + Reading(eq1.rhs))[i])
  {
    var text, ws := Reading(eq1.lhs) + Reading(eq1.rhs), VariablesOf(eq2);
    CollectedFirstOfTwo(Add(eq1.lhs, eq1.rhs), eq1.lhs, eq1.rhs, [], ws);
    assert [] + text == text;
    FirstSharedIsFirst(text, ws, i);
  }

  /** The second equation turned so that the side with the variable comes first. */
  function Turned(eq: Equation, v: string): Equation {
    if ContainsVar(eq.lhs, v) then eq else Equation(eq.rhs, eq.lhs)
  }

  function IsolatedFrom(eq: Equation, v: string): Option<Expr> {
    Isolate(Turned(eq, v).lhs, Turned(eq, v).rhs, v)
  }

  /** `chain_equations`. */
  function Chain(eq1: Equation, eq2: Equation): Option<Equation> {
    var shared := SharedVariable(eq1, eq2);
    if shared.None? then None
    else
      var v := shared.value;
      var isolated := IsolatedFrom(eq2, v);
      if isolated.None? then None
      else Some(Equation(Substitute(eq1.lhs, v, isolated.value), Substitute(eq1.rhs, v, isolated.value)))
  }

  /** Chaining succeeds exactly when the two equations share a variable. */
  lemma ChainSucceeds(eq1: Equation, eq2: Equation)
    ensures Chain(eq1, eq2).Some?
       <==> exists v :: v in VariablesOf(eq1) && v in VariablesOf(eq2)
  {
    var shared := SharedVariable(eq1, eq2);
    if shared.Some? {
      var turned := Turned(eq2, shared.value);
      IsolateSucceeds(turned.lhs, turned.rhs, shared.value);
    }
  }

  /** Where the variable stands on both sides of the second equation, the left side is solved for it. */
  lemma LeftSideSolved(eq1: Equation, eq2: Equation, v: string)
    requires SharedVariable(eq1, eq2) == Some(v) && ContainsVar(eq2.lhs, v)
    ensures Isolate(eq2.lhs, eq2.rhs, v).Some?
    ensures var s := Isolate(eq2.lhs, eq2.rhs, v).value;
            Chain(eq1, eq2) == Some(Equation(Substitute(eq1.lhs, v, s), Substitute(eq1.rhs, v, s)))
  {
    IsolateSucceeds(eq2.lhs, eq2.rhs, v);
  }

  /** A shared variable that occurs once in the second equation does not occur in the chained one. */
  lemma ChainEliminates(eq1: Equation, eq2: Equation)
    requires SharedVariable(eq1, eq2).Some?
    requires var v := SharedVariable(eq1, eq2).value; Occurrences(eq2.lhs, v) + Occurrences(eq2.rhs, v) == 1
    ensures Chain(eq1, eq2).Some? && SharedVariable(eq1, eq2).value !in VariablesOf(Chain(eq1, eq2).value)
  {
    var v := SharedVariable(eq1, eq2).value;
    var turned := Turned(eq2, v);
    IsolateEliminates(turned.lhs, turned.rhs, v);
    SubstitutionEliminates(eq1.lhs, v, IsolatedFrom(eq2, v).value);
    SubstitutionEliminates(eq1.rhs, v, IsolatedFrom(eq2, v).value);
  }

  /**
    At an assignment that satisfies the second equation, and at which every step that
    isolation takes is possible and can be undone, the chained equation holds exactly when
    the first equation does.
    */
  lemma ChainExact(m: Lib, env: Env, eq1: Equation, eq2: Equation)
    requires Invertible(m) && Chain(eq1, eq2).Some? && Satisfies(m, env, eq2)
    requires var v := SharedVariable(eq1, eq2).value;
             && PathDefined(m, env, Turned(eq2, v).lhs, v)
             && Recoverable(m, env, Turned(eq2, v).lhs, v)
    ensures Satisfies(m, env, Chain(eq1, eq2).value) <==> Satisfies(m, env, eq1)
  {
    var v := SharedVariable(eq1, eq2).value;
    var turned := Turned(eq2, v);
    IsolateDefinedExactly(m, env, turned.lhs, turned.rhs, v);
    SubstitutionKeepsValue(m, env, eq1.lhs, v, IsolatedFrom(eq2, v).value);
    SubstitutionKeepsValue(m, env, eq1.rhs, v, IsolatedFrom(eq2, v).value);
  }

  /** The same with conditions on the second equation, its values and its points. */
  lemma ChainExactOnInvertiblePaths(m: Lib, env: Env, eq1: Equation, eq2: Equation)
    requires Invertible(m) && Chain(eq1, eq2).Some? && Satisfies(m, env, eq2)
    requires var v := SharedVariable(eq1, eq2).value;
             && PathDefined(m, env, Turned(eq2, v).lhs, v)
             && InvertiblePath(Turned(eq2, v).lhs, v)
    ensures Satisfies(m, env, Chain(eq1, eq2).value) <==> Satisfies(m, env, eq1)
  {
    var v := SharedVariable(eq1, eq2).value;
    InvertiblePathRecoverable(m, env, Turned(eq2, v).lhs, v);
    IsolateDefinedExactly(m, env, Turned(eq2, v).lhs, Turned(eq2, v).rhs, v);
    ChainExact(m, env, eq1, eq2);
  }

  /** Chaining through x^2 = 4 loses x = -2: y = x becomes y = 4^(1/2). */
  lemma ChainLosesNegativeRoot(m: Lib, env: Env)
    requires Lawful(m) && env == map["x" := -2.0, "y" := -2.0]
    ensures var eq1, eq2 := Equation(Var("y"), Var("x")), Equation(Pow(Var("x"), Num(2.0)), Num(4.0));
            && Satisfies(m, env, eq1) && Satisfies(m, env, eq2)
            && Chain(eq1, eq2) == Some(Equation(Var("y"), Pow(Num(4.0), Div(Num(1.0), Num(2.0)))))
            && Evaluate(m, env, Pow(Num(4.0), Div(Num(1.0), Num(2.0)))) == Some(2.0)
            && !Satisfies(m, env, Chain(eq1, eq2).value)
  {
    var eq1, eq2 := Equation(Var("y"), Var("x")), Equation(Pow(Var("x"), Num(2.0)), Num(4.0));
    PowfSmall(m, -2.0, 2.0);
    PowfSmall(m, 2.0, 2.0);
    assert Times(2.0, 2.0) == 4.0 == Times(-2.0, -2.0);
    RootOfPositive(m, 2.0, 2.0);
    assert Evaluate(m, env, Num(2.0)) == Some(2.0) && Evaluate(m, env, Num(4.0)) == Some(4.0);
    assert Evaluate(m, env, Num(1.0)) == Some(1.0);
    assert Evaluate(m, env, Div(Num(1.0), Num(2.0))) == Some(0.5);
    assert Evaluate(m, env, Var("x")) == Some(-2.0) == Evaluate(m, env, Var("y"));
    assert CollectVariables(Var("y"), []) == ["y"];
    assert VariablesOf(eq1) == ["y", "x"];
    assert CollectVariables(eq2.lhs, []) == ["x"] by {
      assert CollectVariables(Var("x"), []) == ["x"];
      assert CollectVariables(Num(2.0), ["x"]) == ["x"];
    }
    assert VariablesOf(eq2) == ["x"];
    assert ["y", "x"][1..] == ["x"];
    assert FirstShared(["y", "x"], ["x"]) == FirstShared(["x"], ["x"]) == Some("x");
    assert Isolate(eq2.lhs, eq2.rhs, "x") == Isolate(Var("x"), Pow(Num(4.0), Div(Num(1.0), Num(2.0))), "x");
  }

  /** Isolation passes sinh over: from sinh(x) = y it concludes x = y, so z = x becomes z = y. */
  lemma ChainIgnoresSinh(m: Lib, env: Env)
    requires Invertible(m) && env == map["x" := 1.0, "y" := m.fn(Sinh, 1.0), "z" := 1.0]
    ensures var eq1, eq2 := Equation(Var("z"), Var("x")), Equation(Fn(Sinh, Var("x")), Var("y"));
            && Satisfies(m, env, eq1) && Satisfies(m, env, eq2)
            && Chain(eq1, eq2) == Some(Equation(Var("z"), Var("y")))
            && !Satisfies(m, env, Equation(Var("z"), Var("y")))
  {
    assert FarFromIdentity(m, 1.0);
    SinhSharesX(Equation(Var("z"), Var("x")), Equation(Fn(Sinh, Var("x")), Var("y")));
    assert Evaluate(m, env, Var("x")) == Some(1.0) == Evaluate(m, env, Var("z"));
    assert Evaluate(m, env, Fn(Sinh, Var("x"))) == Some(m.fn(Sinh, 1.0)) == Evaluate(m, env, Var("y"));
  }

  lemma SinhSharesX(eq1: Equation, eq2: Equation)
    requires eq1 == Equation(Var("z"), Var("x")) && eq2 == Equation(Fn(Sinh, Var("x")), Var("y"))
    ensures Chain(eq1, eq2) == Some(Equation(Var("z"), Var("y")))
  {
    assert CollectVariables(Var("z"), []) == ["z"] && VariablesOf(eq1) == ["z", "x"];
    assert CollectVariables(Var("x"), []) == ["x"] == CollectVariables(eq2.lhs, []);
    assert VariablesOf(eq2) == ["x", "y"];
    assert ["z", "x"][1..] == ["x"];
    assert FirstShared(["z", "x"], ["x", "y"]) == FirstShared(["x"], ["x", "y"]) == Some("x");
    assert Isolate(eq2.lhs, eq2.rhs, "x") == Isolate(Var("x"), Var("y"), "x") == Some(Var("y"));
    assert Substitute(Var("z"), "x", Var("y")) == Var("z") && Substitute(Var("x"), "x", Var("y")) == Var("y");
  }

  /**
    A step that cannot be undone can be made good by a later one: from (-sqrt(x))^2 = 4
    the even power loses the sign of -2, and squaring -sqrt(x) again does not need it.
    */
  lemma LostSignRegained(m: Lib, env: Env)
    requires Lawful(m) && m.fn(Sqrt, 4.0) == 2.0 && env == map["x" := 4.0]
    ensures var target, other := Pow(Neg(Fn(Sqrt, Var("x"))), Num(2.0)), Num(4.0);
            && Holds(m, env, target, other) && !Recoverable(m, env, target, "x")
            && Isolate(target, other, "x").Some?
            && Evaluate(m, env, Isolate(target, other, "x").value) == Some(4.0) == Lookup(m, env, "x")
  {
    var x, two, four := Var("x"), Num(2.0), Num(4.0);
    var root, half := Fn(Sqrt, x), Div(Num(1.0), two);
    assert Evaluate(m, env, two) == Some(2.0) && Evaluate(m, env, four) == Some(4.0);
    assert Evaluate(m, env, x) == Some(4.0);
    assert Evaluate(m, env, root) == FnValue(m, Sqrt, Some(4.0)) == Some(2.0);
    NegationEvaluates(m, env, root);
    NegationEvaluates(m, env, Pow(four, half));
    PowfSmall(m, -2.0, 2.0);
    PowfSmall(m, 2.0, 2.0);
    assert Times(-2.0, -2.0) == 4.0 == Times(2.0, 2.0);
    RootOfPositive(m, 2.0, 2.0);
    assert Evaluate(m, env, Num(1.0)) == Some(1.0) && Evaluate(m, env, half) == Some(0.5);
    assert Evaluate(m, env, Pow(four, half)) == Some(2.0);
    LostSignPath(x, four);
  }

  lemma NegationEvaluates(m: Lib, env: Env, e: Expr)
    ensures Evaluate(m, env, Neg(e)) == NegValue(Evaluate(m, env, e))
  {
  }

  lemma LostSignPath(x: Expr, other: Expr)
    requires x == Var("x")
    ensures Isolate(Pow(Neg(Fn(Sqrt, x)), Num(2.0)), other, "x") ==
            Some(Pow(Neg(Pow(other, Div(Num(1.0), Num(2.0)))), Num(2.0)))
  {
    var y := Pow(other, Div(Num(1.0), Num(2.0)));
    assert ContainsVar(Neg(Fn(Sqrt, x)), "x");
    assert Isolate(Neg(Fn(Sqrt, x)), y, "x") == Isolate(Fn(Sqrt, x), Neg(y), "x");
    assert Isolate(Fn(Sqrt, x), Neg(y), "x") == Isolate(x, Pow(Neg(y), Num(2.0)), "x");
  }
}
