/** What the round trip keeps: the value of unambiguous trees, and left-associated trees exactly. */
module RoundTripValues {
  import opened Wrappers
  import opened Expressions
  import opened RealFacts
  import opened ValueAlgebra
  import opened Printing
  import opened Parsing
  import opened RoundTrip

  // ----- values -----

  /** No difference to the right of a minus, no quotient to the right of a division, no power as a base. */
  predicate Unambiguous(e: Expr) {
    match e
    case Num(_) => true
    case Var(_) => true
    case Add(a, b) => Unambiguous(a) && Unambiguous(b)
    case Sub(a, b) => Unambiguous(a) && Unambiguous(b) && !b.Sub?
    case Mul(a, b) => Unambiguous(a) && Unambiguous(b)
    case Div(a, b) => Unambiguous(a) && Unambiguous(b) && !b.Div?
    case Pow(a, b) => Unambiguous(a) && Unambiguous(b) && !a.Pow?
    case Neg(a) => Unambiguous(a)
    case Fn(_, a) => Unambiguous(a)
  }

  function OpValues(op: Op, a: Value, b: Value): Value {
    match op
    case Plus => AddValues(a, b)
    case Minus => SubValues(a, b)
    case Star => MulValues(a, b)
    case Slash => DivValues(a, b)
  }

  lemma JoinValue(m: Lib, env: Env, op: Op, l: Expr, r: Expr)
    ensures Evaluate(m, env, Join(op, l, r)) == OpValues(op, Evaluate(m, env, l), Evaluate(m, env, r))
  {
    match op
    case Plus => assert Join(op, l, r) == Add(l, r);
    case Minus => assert Join(op, l, r) == Sub(l, r);
    case Star => assert Join(op, l, r) == Mul(l, r);
    case Slash => assert Join(op, l, r) == Div(l, r);
  }

  /** a * (b / c) is (a * b) / c, and a / (b * c) is left as it is by the printer. */
  lemma TimesQuotient(a: Value, b: Value, c: Value)
    ensures MulValues(a, DivValues(b, c)) == DivValues(MulValues(a, b), c)
  {
    if a.Some? && b.Some? && c.Some? && c.value != 0.0 {
      ProductOverDivisor(a.value, b.value, c.value);
    }
  }

  lemma ProductOverDivisor(a: real, b: real, c: real)
    requires c != 0.0
    ensures Times(a, b / c) == Times(a, b) / c
  {
    var q := b / c;
    assert q * c == b;
    assert (a * q) * c == a * b;
  }

  /** The precedence under which the printer shows the right operand of an operator. */
  function RightPrec(op: Op): Prec {
    match op
    case Plus => AddPrec
    case Minus => SubPrec
    case Star => MulPrec
    case Slash => DivPrec
  }

  /** The operators after which a bare operand of the same level keeps its value. */
  predicate Splits(op: Op, e: Expr) {
    match op
    case Plus => true
    case Minus => NeedsParens(e, SubPrec) || !e.Sub?
    case Star => true
    case Slash => NeedsParens(e, DivPrec) || !e.Div?
  }

  lemma {:induction false} AttachValue(m: Lib, env: Env, l: Expr, op: Op, e: Expr, parent: Prec)
    requires Unambiguous(e) && Splits(op, e)
    requires parent == RightPrec(op) || (op.Plus? && parent == AddPrec) || (op.Star? && parent == DivPrec)
    ensures Evaluate(m, env, Attach(l, op, e, parent)) ==
            OpValues(op, Evaluate(m, env, l), Evaluate(m, env, e))
    decreases e, 1
  {
    AttachUnfolds(l, op, e, parent);
    if Merges(op, e, parent) {
      var first := Attach(l, op, e.left, LeftPrec(e));
      AttachValue(m, env, l, op, e.left, LeftPrec(e));
      AttachValue(m, env, first, OpOf(e), e.right, RightPrec(OpOf(e)));
      RegroupedValue(m, env, op, e, Evaluate(m, env, l));
    } else {
      ReparsedValue(m, env, e);
      JoinValue(m, env, op, l, Reparsed(e));
    }
  }

  /** An operand that is absorbed into the chain to its left keeps the value of the chain. */
  lemma RegroupedValue(m: Lib, env: Env, op: Op, e: Expr, l: Value)
    requires IsBinary(e)
    requires (op.Plus? && (e.Add? || e.Sub?)) || (op.Star? && (e.Mul? || e.Div?))
    ensures OpValues(OpOf(e), OpValues(op, l, Evaluate(m, env, e.left)), Evaluate(m, env, e.right))
         == OpValues(op, l, Evaluate(m, env, e))
  {
    var x, y := Evaluate(m, env, e.left), Evaluate(m, env, e.right);
    assert Evaluate(m, env, e) == OpValues(OpOf(e), x, y);
    MulAssociates(l, x, y);
    TimesQuotient(l, x, y);
  }

  /** Printing and parsing an unambiguous tree keeps its value, and where it is undefined. */
  lemma {:induction false} ReparsedValue(m: Lib, env: Env, e: Expr)
    requires Unambiguous(e)
    ensures Evaluate(m, env, Reparsed(e)) == Evaluate(m, env, e)
    decreases e, 0
  {
    match e
    case Num(_) =>
    case Var(_) =>
    case Add(a, b) => ReparsedValue(m, env, a); AttachValue(m, env, Reparsed(a), Plus, b, AddPrec);
    case Sub(a, b) => ReparsedValue(m, env, a); AttachValue(m, env, Reparsed(a), Minus, b, SubPrec);
    case Mul(a, b) => ReparsedValue(m, env, a); AttachValue(m, env, Reparsed(a), Star, b, MulPrec);
    case Div(a, b) => ReparsedValue(m, env, a); AttachValue(m, env, Reparsed(a), Slash, b, DivPrec);
    case Pow(a, b) => ReparsedValue(m, env, a); ReparsedValue(m, env, b);
    case Neg(a) => ReparsedValue(m, env, a);
    case Fn(_, a) => ReparsedValue(m, env, a);
  }

  /** The round trip on values: whatever is printed unambiguously is read back with its value. */
  lemma RoundTripKeepsValue(m: Lib, env: Env, e: Expr)
    requires Printable(e) && Unambiguous(e)
    ensures Parse(m, Print(e)).Ok?
    ensures Evaluate(m, env, Parse(m, Print(e)).value) == Evaluate(m, env, e)
  {
    ParseOfPrint(m, e);
    ReparsedValue(m, env, e);
  }

  /** On this fragment the printed form is a sound grouping key. */
  lemma PrintedKeysAgree(m: Lib, env: Env, a: Expr, b: Expr)
    requires Printable(a) && Unambiguous(a) && Printable(b) && Unambiguous(b)
    requires Print(a) == Print(b)
    ensures Evaluate(m, env, a) == Evaluate(m, env, b)
  {
    RoundTripKeepsValue(m, env, a);
    RoundTripKeepsValue(m, env, b);
  }

  // ----- trees -----

  /** Whether an operand shown bare is absorbed into the chain to its left. */
  predicate Merges(op: Op, e: Expr, parent: Prec) {
    !NeedsParens(e, parent) && (if IsSumOp(op) then e.Add? || e.Sub? else e.Mul? || e.Div?)
  }

  /** No right operand of a chain is absorbed, and no power is a base. */
  predicate LeftAssociated(e: Expr) {
    match e
    case Num(_) => true
    case Var(_) => true
    case Add(a, b) => LeftAssociated(a) && LeftAssociated(b) && !Merges(Plus, b, AddPrec)
    case Sub(a, b) => LeftAssociated(a) && LeftAssociated(b) && !Merges(Minus, b, SubPrec)
    case Mul(a, b) => LeftAssociated(a) && LeftAssociated(b) && !Merges(Star, b, MulPrec)
    case Div(a, b) => LeftAssociated(a) && LeftAssociated(b) && !Merges(Slash, b, DivPrec)
    case Pow(a, b) => LeftAssociated(a) && LeftAssociated(b) && !a.Pow?
    case Neg(a) => LeftAssociated(a)
    case Fn(_, a) => LeftAssociated(a)
  }

  function Size(e: Expr): nat {
    match e
    case Num(_) => 1
    case Var(_) => 1
    case Add(a, b) => Size(a) + Size(b) + 1
    case Sub(a, b) => Size(a) + Size(b) + 1
    case Mul(a, b) => Size(a) + Size(b) + 1
    case Div(a, b) => Size(a) + Size(b) + 1
    case Pow(a, b) => Size(a) + Size(b) + 1
    case Neg(a) => Size(a) + 1
    case Fn(_, a) => Size(a) + 1
  }

  predicate IsBinary(e: Expr) {
    e.Add? || e.Sub? || e.Mul? || e.Div?
  }

  function OpOf(e: Expr): Op
    requires IsBinary(e)
  {
    match e
    case Add(_, _) => Plus
    case Sub(_, _) => Minus
    case Mul(_, _) => Star
    case Div(_, _) => Slash
  }

  /** The precedence under which the printer shows the left operand of `e`. */
  function LeftPrec(e: Expr): Prec
    requires IsBinary(e)
  {
    match e
    case Mul(_, _) => MulPrec
    case Div(_, _) => DivPrec
    case _ => AddPrec
  }

  lemma AttachUnfolds(l: Expr, op: Op, e: Expr, parent: Prec)
    ensures if Merges(op, e, parent)
            then Attach(l, op, e, parent) ==
                 Attach(Attach(l, op, e.left, LeftPrec(e)), OpOf(e), e.right, RightPrec(OpOf(e)))
            else Attach(l, op, e, parent) == Join(op, l, Reparsed(e))
  {
  }

  lemma {:induction false} ReparsedSize(e: Expr)
    ensures Size(Reparsed(e)) == Size(e)
    decreases e, 0
  {
    match e
    case Num(_) =>
    case Var(_) =>
    case Add(a, b) => ReparsedSize(a); AttachSize(Reparsed(a), Plus, b, AddPrec);
    case Sub(a, b) => ReparsedSize(a); AttachSize(Reparsed(a), Minus, b, SubPrec);
    case Mul(a, b) => ReparsedSize(a); AttachSize(Reparsed(a), Star, b, MulPrec);
    case Div(a, b) => ReparsedSize(a); AttachSize(Reparsed(a), Slash, b, DivPrec);
    case Pow(a, b) => ReparsedSize(b); PowChainSize(a, Reparsed(b));
    case Neg(a) => ReparsedSize(a);
    case Fn(_, a) => ReparsedSize(a);
  }

  /** An absorbed operand leaves a right operand that is smaller than itself. */
  lemma {:induction false} AttachSize(l: Expr, op: Op, e: Expr, parent: Prec)
    ensures var r := Attach(l, op, e, parent);
            && Size(r) == Size(l) + Size(e) + 1
            && IsBinary(r) && Size(r.right) <= Size(e)
            && (Merges(op, e, parent) ==> Size(r.right) < Size(e))
            && (!Merges(op, e, parent) ==> r == Join(op, l, Reparsed(e)))
    decreases e, 1
  {
    AttachUnfolds(l, op, e, parent);
    if Merges(op, e, parent) {
      var first := Attach(l, op, e.left, LeftPrec(e));
      AttachSize(l, op, e.left, LeftPrec(e));
      AttachSize(first, OpOf(e), e.right, RightPrec(OpOf(e)));
    } else {
      ReparsedSize(e);
      JoinSize(op, l, Reparsed(e));
    }
  }

  lemma JoinSize(op: Op, l: Expr, r: Expr)
    ensures IsBinary(Join(op, l, r)) && Join(op, l, r).right == r && Size(Join(op, l, r)) == Size(l) + Size(r) + 1
  {
  }

  lemma {:induction false} PowChainSize(e: Expr, exp: Expr)
    ensures var r := PowChain(e, exp);
            && r.Pow? && Size(r) == Size(e) + Size(exp) + 1 && Size(r.base) <= Size(e)
            && (e.Pow? ==> Size(r.base) < Size(e))
    decreases e, 1
  {
    if e.Pow? {
      PowChainSize(e.exponent, exp);
      PowChainSize(e.base, PowChain(e.exponent, exp));
    } else {
      ReparsedSize(e);
    }
  }

  /** Exactly the left-associated trees come back unchanged. */
  lemma {:induction false} ReparsedIdentity(e: Expr)
    ensures Reparsed(e) == e <==> LeftAssociated(e)
  {
    match e
    case Num(_) =>
    case Var(_) =>
    case Add(a, b) => ReparsedIdentity(a); ReparsedIdentity(b); AttachSize(Reparsed(a), Plus, b, AddPrec);
    case Sub(a, b) => ReparsedIdentity(a); ReparsedIdentity(b); AttachSize(Reparsed(a), Minus, b, SubPrec);
    case Mul(a, b) => ReparsedIdentity(a); ReparsedIdentity(b); AttachSize(Reparsed(a), Star, b, MulPrec);
    case Div(a, b) => ReparsedIdentity(a); ReparsedIdentity(b); AttachSize(Reparsed(a), Slash, b, DivPrec);
    case Pow(a, b) => ReparsedIdentity(a); ReparsedIdentity(b); PowChainSize(a, Reparsed(b));
    case Neg(a) => ReparsedIdentity(a);
    case Fn(_, a) => ReparsedIdentity(a);
  }

  /** The round trip on trees: it is the identity exactly on the left-associated ones. */
  lemma RoundTripExact(m: Lib, e: Expr)
    requires Printable(e)
    ensures Parse(m, Print(e)) == Ok(e) <==> LeftAssociated(e)
  {
    ParseOfPrint(m, e);
    ReparsedIdentity(e);
  }

  // ----- where it fails -----

  /** The three ambiguous shapes are read back as different trees, with different values. */
  lemma AmbiguousShapes(m: Lib, env: Env)
    requires Lookup(m, env, "x") == Some(2.0)
    ensures var x := Var("x");
            && Parse(m, Print(Sub(x, Sub(x, x)))) == Ok(Sub(Sub(x, x), x))
            && Parse(m, Print(Div(x, Div(x, x)))) == Ok(Div(Div(x, x), x))
            && Parse(m, Print(Pow(Pow(x, x), Num(3.0)))) == Ok(Pow(x, Pow(x, Num(3.0))))
    ensures var x := Var("x");
            && Evaluate(m, env, Sub(x, Sub(x, x))) == Some(2.0)
            && Evaluate(m, env, Sub(Sub(x, x), x)) == Some(-2.0)
            && Evaluate(m, env, Div(x, Div(x, x))) == Some(2.0)
            && Evaluate(m, env, Div(Div(x, x), x)) == Some(0.5)
            && Evaluate(m, env, Pow(Pow(x, x), Num(3.0))) == Some(64.0)
            && Evaluate(m, env, Pow(x, Pow(x, Num(3.0)))) == Some(256.0)
  {
    AmbiguousTrees(m, Var("x"), Num(3.0));
    AmbiguousValues(m, env, Var("x"));
  }

  lemma AmbiguousValues(m: Lib, env: Env, x: Expr)
    requires Evaluate(m, env, x) == Some(2.0)
    ensures Evaluate(m, env, Sub(x, Sub(x, x))) == Some(2.0) && Evaluate(m, env, Sub(Sub(x, x), x)) == Some(-2.0)
    ensures Evaluate(m, env, Div(x, Div(x, x))) == Some(2.0) && Evaluate(m, env, Div(Div(x, x), x)) == Some(0.5)
    ensures Evaluate(m, env, Pow(Pow(x, x), Num(3.0))) == Some(64.0)
    ensures Evaluate(m, env, Pow(x, Pow(x, Num(3.0)))) == Some(256.0)
  {
    assert Evaluate(m, env, Sub(x, x)) == Some(0.0) && Evaluate(m, env, Div(x, x)) == Some(1.0);
    PowersOfTwo();
    assert Powf(m, 2.0, 2.0) == Some(4.0) && Powf(m, 4.0, 3.0) == Some(64.0);
    assert Powf(m, 2.0, 3.0) == Some(8.0) && Powf(m, 2.0, 8.0) == Some(256.0);
    assert Evaluate(m, env, Num(3.0)) == Some(3.0);
    assert Evaluate(m, env, Pow(x, x)) == Some(4.0) && Evaluate(m, env, Pow(x, Num(3.0))) == Some(8.0);
  }

  lemma AmbiguousTrees(m: Lib, x: Expr, n: Expr)
    requires x == Var("x") && n == Num(3.0)
    ensures Parse(m, Print(Sub(x, Sub(x, x)))) == Ok(Sub(Sub(x, x), x))
    ensures Parse(m, Print(Div(x, Div(x, x)))) == Ok(Div(Div(x, x), x))
    ensures Parse(m, Print(Pow(Pow(x, x), n))) == Ok(Pow(x, Pow(x, n)))
  {
    assert Printable(x) && Printable(n);
    assert Printable(Sub(x, x)) && Printable(Div(x, x)) && Printable(Pow(x, x));
    ParseOfPrint(m, Sub(x, Sub(x, x)));
    ParseOfPrint(m, Div(x, Div(x, x)));
    ParseOfPrint(m, Pow(Pow(x, x), n));
    AmbiguousReparsed(x, n);
  }

  lemma AmbiguousReparsed(x: Expr, n: Expr)
    requires x.Var? && n.Num?
    ensures Reparsed(Sub(x, Sub(x, x))) == Sub(Sub(x, x), x)
    ensures Reparsed(Div(x, Div(x, x))) == Div(Div(x, x), x)
    ensures Reparsed(Pow(Pow(x, x), n)) == Pow(x, Pow(x, n))
  {
    assert Reparsed(x) == x && Reparsed(n) == n;
    assert Attach(x, Minus, x, AddPrec) == Sub(x, x) && Attach(x, Slash, x, DivPrec) == Div(x, x);
    assert Attach(Sub(x, x), Minus, x, SubPrec) == Sub(Sub(x, x), x);
    assert Attach(Div(x, x), Slash, x, DivPrec) == Div(Div(x, x), x);
    assert Attach(x, Minus, Sub(x, x), SubPrec) == Attach(Attach(x, Minus, x, AddPrec), Minus, x, SubPrec);
    assert Attach(x, Slash, Div(x, x), DivPrec) == Attach(Attach(x, Slash, x, DivPrec), Slash, x, DivPrec);
    assert PowChain(Pow(x, x), n) == PowChain(x, PowChain(x, n));
  }

  lemma PowersOfTwo()
    ensures NatPow(2.0, 2) == 4.0 && NatPow(2.0, 3) == 8.0 && NatPow(2.0, 8) == 256.0
    ensures NatPow(4.0, 3) == 64.0
  {
    assert NatPow(2.0, 1) == 2.0 && NatPow(4.0, 1) == 4.0 && NatPow(4.0, 2) == 16.0;
    assert NatPow(2.0, 4) == 16.0 && NatPow(2.0, 5) == 32.0 && NatPow(2.0, 6) == 64.0 && NatPow(2.0, 7) == 128.0;
  }
}
