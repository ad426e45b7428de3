/**
  Printing and then parsing. `Reparsed` says which tree comes back for every printable
  expression, whatever its shape; the other results follow from it.
  */
module RoundTrip {
  import opened Wrappers
  import opened Expressions
  import opened Printing
  import opened Parsing

  // ----- the fragment -----

  /** A name the parser reads as a variable. */
  predicate OrdinaryName(v: string) {
    && v != [] && (IsAlpha(v[0]) || v[0] == '_') && (forall i | 0 <= i < |v| :: IsNameChar(v[i]))
    && v != "pi" && v != "e"
  }

  /** Literals are natural numbers below 2^63 and variables have ordinary names. */
  predicate Printable(e: Expr) {
    match e
    case Num(n) => IsInteger(n) && 0.0 <= n <= I64_MAX as real
    case Var(v) => OrdinaryName(v)
    case Add(a, b) => Printable(a) && Printable(b)
    case Sub(a, b) => Printable(a) && Printable(b)
    case Mul(a, b) => Printable(a) && Printable(b)
    case Div(a, b) => Printable(a) && Printable(b)
    case Pow(a, b) => Printable(a) && Printable(b)
    case Neg(a) => Printable(a)
    case Fn(_, a) => Printable(a)
  }

  // ----- the tree that comes back -----

  datatype Op = Plus | Minus | Star | Slash

  function Join(op: Op, l: Expr, r: Expr): Expr {
    match op
    case Plus => Add(l, r)
    case Minus => Sub(l, r)
    case Star => Mul(l, r)
    case Slash => Div(l, r)
  }

  predicate IsSumOp(op: Op) {
    op.Plus? || op.Minus?
  }

  /** The result of parsing the printed form of `e`. */
  function Reparsed(e: Expr): Expr
    decreases e, 0
  {
    match e
    case Num(_) => e
    case Var(_) => e
    case Add(a, b) => Attach(Reparsed(a), Plus, b, AddPrec)
    case Sub(a, b) => Attach(Reparsed(a), Minus, b, SubPrec)
    case Mul(a, b) => Attach(Reparsed(a), Star, b, MulPrec)
    case Div(a, b) => Attach(Reparsed(a), Slash, b, DivPrec)
    case Pow(a, b) => PowChain(a, Reparsed(b))
    case Neg(a) => Neg(Reparsed(a))
    case Fn(f, a) => Fn(f, Reparsed(a))
  }

  /** What comes back for `l`, an operator, and the operand `e` shown under `parent`. */
  function Attach(l: Expr, op: Op, e: Expr, parent: Prec): Expr
    decreases e, 1
  {
    if NeedsParens(e, parent) then Join(op, l, Reparsed(e))
    else match e
      case Add(a, b) =>
        if IsSumOp(op) then Attach(Attach(l, op, a, AddPrec), Plus, b, AddPrec) else Join(op, l, Reparsed(e))
      case Sub(a, b) =>
        if IsSumOp(op) then Attach(Attach(l, op, a, AddPrec), Minus, b, SubPrec) else Join(op, l, Reparsed(e))
      case Mul(a, b) =>
        if IsSumOp(op) then Join(op, l, Reparsed(e)) else Attach(Attach(l, op, a, MulPrec), Star, b, MulPrec)
      case Div(a, b) =>
        if IsSumOp(op) then Join(op, l, Reparsed(e)) else Attach(Attach(l, op, a, DivPrec), Slash, b, DivPrec)
      case _ => Join(op, l, Reparsed(e))
  }

  /** What comes back for `e` as the base of a power: a power there is not parenthesized. */
  function PowChain(e: Expr, exp: Expr): Expr
    decreases e, 1
  {
    if e.Pow? then PowChain(e.base, PowChain(e.exponent, exp)) else Pow(Reparsed(e), exp)
  }

  // ----- characters and spaces -----

  /** What may follow a printed operand: nothing, or a space, an operator or a closer. */
  predicate Follows(s: Input) {
    && (s == [] || s[0] in " +-*/^)|")
    && (SkipSpace(s) == [] || SkipSpace(s)[0] in "+-*/^)|")
  }

  lemma {:induction false} SpanPrefix(a: string, s: Input, p: char -> bool)
    requires forall i | 0 <= i < |a| :: p(a[i])
    requires s == [] || !p(s[0])
    ensures Span(a + s, p) == |a|
  {
    if a != [] {
      assert (a + s)[0] == a[0] && (a + s)[1..] == a[1..] + s;
      SpanPrefix(a[1..], s, p);
    } else {
      assert a + s == s;
    }
  }

  lemma TailsSkipSpace(m: Lib, l: Expr, s: Input)
    ensures AddSubTail(m, l, SkipSpace(s)) == AddSubTail(m, l, s)
    ensures MulDivTail(m, l, SkipSpace(s)) == MulDivTail(m, l, s)
  {
    SkipSpaceTwice(s);
  }

  lemma SkipSpaceTwice(s: Input)
    ensures SkipSpace(SkipSpace(s)) == SkipSpace(s)
  {
  }

  lemma LeadingSpace(m: Lib, s: Input)
    ensures ParseMulDiv(m, " " + s) == ParseMulDiv(m, s)
  {
    var t := " " + s;
    assert t[0] == ' ' && t[1..] == s;
    assert SkipSpace(t) == SkipSpace(s);
    assert ParseUnary(m, t) == ParseUnary(m, s);
    assert ParsePower(m, t) == ParsePower(m, s);
  }

  // ----- numbers -----

  lemma {:induction false} DecimalDigits(n: nat)
    ensures forall i | 0 <= i < |Decimal(n)| :: IsDigit(Decimal(n)[i])
    ensures DigitsValue(Decimal(n)) == n
  {
    DigitFacts(n % 10);
    var s := Decimal(n);
    if n < 10 {
      assert s[..|s| - 1] == [];
    } else {
      DecimalDigits(n / 10);
      assert s[..|s| - 1] == Decimal(n / 10);
      assert s[|s| - 1] == Digit(n % 10);
    }
  }

  lemma DigitFacts(d: nat)
    requires d < 10
    ensures IsDigit(Digit(d)) && (Digit(d) - '0') as nat == d
  {
    var ds := "0123456789";
    assert ds[d] == ('0' as int + d) as char;
  }

  lemma ParsePrintedNumber(m: Lib, n: real, rest: Input)
    requires Printable(Num(n)) && Follows(rest)
    ensures ParseUnary(m, Print(Num(n)) + rest) == Ok((Num(n), rest))
  {
    var d := Decimal(n.Floor);
    assert Print(Num(n)) == d;
    DecimalDigits(n.Floor);
    var s := d + rest;
    assert s[0] == d[0];
    SpanPrefix(d, rest, IsNumberChar);
    assert s[..|d|] == d && s[|d|..] == rest;
    assert d + [] == d;
    SpanPrefix(d, [], IsDigit);
    assert ParseAtom(m, s) == ParseNumber(s);
  }

  // ----- names -----

  lemma ParsePrintedVariable(m: Lib, v: string, rest: Input)
    requires OrdinaryName(v) && Follows(rest)
    ensures ParseUnary(m, Print(Var(v)) + rest) == Ok((Var(v), SkipSpace(rest)))
  {
    var s := v + rest;
    assert s[0] == v[0];
    SpanPrefix(v, rest, IsNameChar);
    assert s[..|v|] == v && s[|v|..] == rest;
    assert ParseAtom(m, s) == ParseName(m, s);
  }

  lemma NameFacts(f: Func)
    ensures Name(f) != [] && IsAlpha(Name(f)[0])
    ensures forall i | 0 <= i < |Name(f)| :: IsNameChar(Name(f)[i])
    ensures forall name :: FunctionNamed(name) == Some(f) <==> name == Name(f)
  {
  }

  // ----- each printed form parses -----

  predicate FollowsPower(s: Input) {
    Follows(s) && !At(SkipSpace(s), '^')
  }

  predicate FollowsProduct(s: Input) {
    FollowsPower(s) && !At(SkipSpace(s), '*') && !At(SkipSpace(s), '/')
  }

  /** The parse result is `e` with, up to spaces, `rest` left over. */
  ghost predicate Yields(r: Parsed, e: Expr, rest: Input) {
    r.Ok? && r.value.0 == e && SkipSpace(r.value.1) == SkipSpace(rest)
  }

  lemma Head(c: char, s: Input)
    requires !IsWhitespace(c)
    ensures var t := [c] + s; t[0] == c && t[1..] == s && SkipSpace(t) == t
  {
  }

  lemma Regroup(a: string, op: string, b: string, rest: Input)
    ensures a + op + b + rest == a + (op + (b + rest))
  {
  }

  lemma OperatorFollows(op: string, s: Input)
    requires |op| == 1 && op[0] in "*/^"
    ensures Follows(op + s) && SkipSpace(op + s) == op + s
    ensures op[0] != '^' ==> FollowsPower(op + s)
  {
    Head(op[0], s);
    assert op == [op[0]];
  }

  /** An atom: a literal, a name, a negation or a function call. */
  lemma {:induction false} ParsesAtom(m: Lib, e: Expr, rest: Input)
    requires Printable(e) && PrecOf(e) == AtomPrec && Follows(rest)
    ensures Yields(ParseUnary(m, Print(e) + rest), Reparsed(e), rest)
    decreases e, 0
  {
    SkipSpaceTwice(rest);
    match e
    case Num(n) => ParsePrintedNumber(m, n, rest);
    case Var(v) => ParsePrintedVariable(m, v, rest);
    case Neg(a) => ParsesNegation(m, a, rest);
    case Fn(f, a) => ParsesCall(m, f, a, rest);
  }

  lemma {:induction false} ParsesNegation(m: Lib, a: Expr, rest: Input)
    requires Printable(a) && Follows(rest)
    ensures Yields(ParseUnary(m, Print(Neg(a)) + rest), Neg(Reparsed(a)), rest)
    decreases a, 12
  {
    if a.Num? || a.Var? || a.Fn? {
      ParsesAtom(m, a, rest);
      assert Print(Neg(a)) + rest == ['-'] + (Print(a) + rest);
      MinusBefore(m, Print(a) + rest, Reparsed(a), rest);
    } else {
      ParsesParenthesized(m, a, rest);
      assert Print(Neg(a)) + rest == ['-'] + ("(" + Print(a) + ")" + rest);
      MinusBefore(m, "(" + Print(a) + ")" + rest, Reparsed(a), rest);
    }
  }

  lemma MinusBefore(m: Lib, s: Input, e: Expr, rest: Input)
    requires Yields(ParseUnary(m, s), e, rest)
    ensures Yields(ParseUnary(m, ['-'] + s), Neg(e), rest)
  {
    Head('-', s);
  }

  lemma {:induction false} ParsesCall(m: Lib, f: Func, a: Expr, rest: Input)
    requires Printable(a) && Follows(rest)
    ensures Yields(ParseUnary(m, Print(Fn(f, a)) + rest), Fn(f, Reparsed(a)), rest)
    decreases a, 12
  {
    var s := Print(Fn(f, a)) + rest;
    if f == Abs {
      ParsesGroup(m, a, '|', rest);
      assert s == ['|'] + (Print(a) + ['|'] + rest);
      Head('|', Print(a) + ['|'] + rest);
    } else {
      ParsesNamedCall(m, f, a, rest);
    }
  }

  lemma {:induction false} ParsesNamedCall(m: Lib, f: Func, a: Expr, rest: Input)
    requires Printable(a) && f != Abs
    ensures ParseUnary(m, Print(Fn(f, a)) + rest) == Ok((Fn(f, Reparsed(a)), rest))
    decreases a, 11
  {
    hide ParseUnary, ParseGroup, FunctionNamed;
    NameFacts(f);
    var inner := Print(a) + [')'] + rest;
    ParsesGroup(m, a, ')', rest);
    CallOfName(m, Name(f), f, Reparsed(a), inner, rest);
    assert Print(Fn(f, a)) + rest == Name(f) + (['('] + inner);
  }

  lemma CallOfName(m: Lib, name: string, f: Func, arg: Expr, inner: Input, rest: Input)
    requires name != [] && IsAlpha(name[0]) && forall i | 0 <= i < |name| :: IsNameChar(name[i])
    requires FunctionNamed(name) == Some(f)
    requires ParseGroup(m, inner, ')') == Ok((arg, rest))
    ensures ParseUnary(m, name + (['('] + inner)) == Ok((Fn(f, arg), rest))
  {
    var tail := ['('] + inner;
    var s := name + tail;
    Head('(', inner);
    SpanPrefix(name, tail, IsNameChar);
    assert s[..|name|] == name && s[|name|..] == tail && s[0] == name[0];
    assert SkipSpace(s) == s;
    assert ParseAtom(m, s) == ParseName(m, s);
  }

  /** An expression up to its closing delimiter. */
  lemma {:induction false} ParsesGroup(m: Lib, e: Expr, close: char, rest: Input)
    requires Printable(e) && close in ")|"
    ensures ParseGroup(m, Print(e) + [close] + rest, close) == Ok((Reparsed(e), rest))
    decreases e, 4
  {
    var tail := [close] + rest;
    Head(close, rest);
    assert Print(e) + [close] + rest == Print(e) + tail;
    ParsesSum(m, e, tail);
    assert AddSubTail(m, Reparsed(e), tail) == Ok((Reparsed(e), tail));
  }

  lemma {:induction false} ParsesParenthesized(m: Lib, e: Expr, rest: Input)
    requires Printable(e)
    ensures ParseUnary(m, "(" + Print(e) + ")" + rest) == Ok((Reparsed(e), rest))
    decreases e, 5
  {
    var s := Print(e) + [')'] + rest;
    assert "(" + Print(e) + ")" + rest == ['('] + s;
    Head('(', s);
    ParsesGroup(m, e, ')', rest);
  }

  // powers

  /** An operand that binds at least as tightly as a power, or is put in parentheses. */
  lemma {:induction false} ParsesOperand(m: Lib, e: Expr, parent: Prec, rest: Input)
    requires Printable(e) && Follows(rest) && (NeedsParens(e, parent) || PrecOf(e) == AtomPrec)
    ensures Yields(ParseUnary(m, Operand(e, parent) + rest), Reparsed(e), rest)
    decreases e, 6
  {
    if NeedsParens(e, parent) {
      ParsesParenthesized(m, e, rest);
    } else {
      ParsesAtom(m, e, rest);
    }
  }

  /** A base before `^`. */
  lemma {:induction false} ParsesBase(m: Lib, e: Expr, s: Input, exp: Expr, rest: Input)
    requires Printable(e) && ParsePower(m, s) == Ok((exp, rest))
    ensures ParsePower(m, Operand(e, PowPrec) + ("^" + s)) == Ok((PowChain(e, exp), rest))
    decreases e, 7
  {
    if e.Pow? {
      ParsesBase(m, e.exponent, s, exp, rest);
      var inner := Operand(e.exponent, PowPrec) + ("^" + s);
      ParsesBase(m, e.base, inner, PowChain(e.exponent, exp), rest);
      Regroup(Operand(e.base, PowPrec), "^", Operand(e.exponent, PowPrec), "^" + s);
    } else {
      OperatorFollows("^", s);
      ParsesOperand(m, e, PowPrec, "^" + s);
      assert ("^" + s)[1..] == s;
    }
  }

  /** A power or an atom, not followed by `^`. */
  lemma {:induction false} ParsesBarePower(m: Lib, e: Expr, rest: Input)
    requires Printable(e) && FollowsPower(rest) && (PrecOf(e) == AtomPrec || e.Pow?)
    ensures ParsePower(m, Print(e) + rest) == Ok((Reparsed(e), SkipSpace(rest)))
    decreases e, 1
  {
    if e.Pow? {
      ParsesPower(m, e.exponent, PowPrec, rest);
      var s := Operand(e.exponent, PowPrec) + rest;
      ParsesBase(m, e.base, s, Reparsed(e.exponent), SkipSpace(rest));
      Regroup(Operand(e.base, PowPrec), "^", Operand(e.exponent, PowPrec), rest);
    } else {
      ParsesAtom(m, e, rest);
    }
  }

  /** The same, or anything in parentheses. */
  lemma {:induction false} ParsesPower(m: Lib, e: Expr, parent: Prec, rest: Input)
    requires Printable(e) && FollowsPower(rest)
    requires NeedsParens(e, parent) || PrecOf(e) == AtomPrec || e.Pow?
    ensures ParsePower(m, Operand(e, parent) + rest) == Ok((Reparsed(e), SkipSpace(rest)))
    decreases e, 8
  {
    if NeedsParens(e, parent) {
      ParsesParenthesized(m, e, rest);
    } else {
      ParsesBarePower(m, e, rest);
    }
  }

  // products

  /** Natural literals are never shown as quotients. */
  lemma PrintablePlain(a: Expr, b: Expr)
    requires Printable(a) && Printable(b)
    ensures Print(Mul(a, b)) == Operand(a, MulPrec) + "*" + Operand(b, MulPrec)
  {
    if a.Num? && a.n != 1.0 { NoNiceReciprocal(a.n); }
    if b.Num? && b.n != 1.0 { NoNiceReciprocal(b.n); }
  }

  lemma NoNiceReciprocal(n: real)
    requires IsInteger(n) && n >= 0.0 && n != 1.0
    ensures NiceReciprocal(n) == None
  {
    if n >= 2.0 {
      assert 0.0 < 1.0 / n <= 0.5;
      assert (1.0 / n).Floor == 0;
    }
  }

  /** A product, a quotient or less, as the start of a product. */
  lemma {:induction false} ParsesBareProduct(m: Lib, e: Expr, rest: Input)
    requires Printable(e) && FollowsPower(rest) && !e.Add? && !e.Sub?
    ensures ParseMulDiv(m, Print(e) + rest) == MulDivTail(m, Reparsed(e), rest)
    decreases e, 2
  {
    if e.Mul? {
      ParsesBareMul(m, e.left, e.right, rest);
    } else if e.Div? {
      ParsesBareDiv(m, e.left, e.right, rest);
    } else {
      ParsesBarePower(m, e, rest);
      TailsSkipSpace(m, Reparsed(e), rest);
    }
  }

  lemma {:induction false} ParsesBareMul(m: Lib, a: Expr, b: Expr, rest: Input)
    requires Printable(a) && Printable(b) && FollowsPower(rest)
    ensures ParseMulDiv(m, Print(Mul(a, b)) + rest) == MulDivTail(m, Reparsed(Mul(a, b)), rest)
    decreases Mul(a, b), 1
  {
    var operand := Operand(b, MulPrec) + rest;
    PrintablePlain(a, b);
    Regroup(Operand(a, MulPrec), "*", Operand(b, MulPrec), rest);
    OperatorFollows("*", operand);
    ParsesProduct(m, a, MulPrec, "*" + operand);
    ParsesFactor(m, Reparsed(a), Star, b, MulPrec, rest);
  }

  lemma {:induction false} ParsesBareDiv(m: Lib, a: Expr, b: Expr, rest: Input)
    requires Printable(a) && Printable(b) && FollowsPower(rest)
    ensures ParseMulDiv(m, Print(Div(a, b)) + rest) == MulDivTail(m, Reparsed(Div(a, b)), rest)
    decreases Div(a, b), 1
  {
    var operand := Operand(b, DivPrec) + rest;
    Regroup(Operand(a, DivPrec), "/", Operand(b, DivPrec), rest);
    OperatorFollows("/", operand);
    ParsesProduct(m, a, DivPrec, "/" + operand);
    ParsesFactor(m, Reparsed(a), Slash, b, DivPrec, rest);
  }

  lemma {:induction false} ParsesProduct(m: Lib, e: Expr, parent: Prec, rest: Input)
    requires Printable(e) && FollowsPower(rest) && (parent == MulPrec || parent == DivPrec)
    ensures ParseMulDiv(m, Operand(e, parent) + rest) == MulDivTail(m, Reparsed(e), rest)
    decreases e, 9
  {
    if NeedsParens(e, parent) {
      ParsesPower(m, e, parent, rest);
      TailsSkipSpace(m, Reparsed(e), rest);
    } else {
      ParsesBareProduct(m, e, rest);
    }
  }

  function Symbol(op: Op): char {
    match op
    case Plus => '+'
    case Minus => '-'
    case Star => '*'
    case Slash => '/'
  }

  /** An operator and its right operand, in the course of a product. */
  lemma {:induction false} ParsesFactor(m: Lib, l: Expr, op: Op, e: Expr, parent: Prec, rest: Input)
    requires Printable(e) && FollowsPower(rest) && !IsSumOp(op) && (parent == MulPrec || parent == DivPrec)
    ensures MulDivTail(m, l, [Symbol(op)] + (Operand(e, parent) + rest)) ==
            MulDivTail(m, Attach(l, op, e, parent), rest)
    decreases e, 10
  {
    if !NeedsParens(e, parent) && e.Mul? {
      var operand := Operand(e.right, MulPrec) + rest;
      PrintablePlain(e.left, e.right);
      Regroup(Operand(e.left, MulPrec), "*", Operand(e.right, MulPrec), rest);
      OperatorFollows("*", operand);
      ParsesFactor(m, l, op, e.left, MulPrec, "*" + operand);
      ParsesFactor(m, Attach(l, op, e.left, MulPrec), Star, e.right, MulPrec, rest);
    } else if !NeedsParens(e, parent) && e.Div? {
      var operand := Operand(e.right, DivPrec) + rest;
      Regroup(Operand(e.left, DivPrec), "/", Operand(e.right, DivPrec), rest);
      OperatorFollows("/", operand);
      ParsesFactor(m, l, op, e.left, DivPrec, "/" + operand);
      ParsesFactor(m, Attach(l, op, e.left, DivPrec), Slash, e.right, DivPrec, rest);
    } else {
      ParsesPower(m, e, parent, rest);
      FactorStep(m, l, op, Reparsed(e), Operand(e, parent) + rest, SkipSpace(rest));
      TailsSkipSpace(m, Join(op, l, Reparsed(e)), rest);
    }
  }

  lemma FactorStep(m: Lib, l: Expr, op: Op, r: Expr, s: Input, rest: Input)
    requires !IsSumOp(op) && ParsePower(m, s) == Ok((r, rest))
    ensures MulDivTail(m, l, [Symbol(op)] + s) == MulDivTail(m, Join(op, l, r), rest)
  {
    Head(Symbol(op), s);
  }

  // sums

  /** Any expression, as the start of a sum. */
  lemma {:induction false} ParsesSum(m: Lib, e: Expr, rest: Input)
    requires Printable(e) && FollowsProduct(rest)
    ensures ParseAddSub(m, Print(e) + rest) == AddSubTail(m, Reparsed(e), rest)
    decreases e, 3
  {
    match e
    case Add(a, b) =>
      Regroup(Operand(a, AddPrec), " + ", Operand(b, AddPrec), rest);
      SpacedSymbol('+', Operand(b, AddPrec) + rest);
      ParsesSum(m, a, " + " + (Operand(b, AddPrec) + rest));
      ParsesTerm(m, Reparsed(a), Plus, b, AddPrec, rest);
    case Sub(a, b) =>
      Regroup(Operand(a, AddPrec), " - ", Operand(b, SubPrec), rest);
      SpacedSymbol('-', Operand(b, SubPrec) + rest);
      ParsesSum(m, a, " - " + (Operand(b, SubPrec) + rest));
      ParsesTerm(m, Reparsed(a), Minus, b, SubPrec, rest);
    case _ =>
      ParsesBareProduct(m, e, rest);
      ProductEnds(m, Reparsed(e), rest);
      TailsSkipSpace(m, Reparsed(e), rest);
  }

  lemma ProductEnds(m: Lib, l: Expr, rest: Input)
    requires FollowsProduct(rest)
    ensures MulDivTail(m, l, rest) == Ok((l, SkipSpace(rest)))
  {
  }

  lemma SpacedSymbol(c: char, s: Input)
    requires c in "+-"
    ensures var t := [' ', c, ' '] + s;
            FollowsProduct(t) && SkipSpace(t) == [c, ' '] + s && SkipSpace(t)[1..] == " " + s
  {
    var t := [' ', c, ' '] + s;
    assert t[0] == ' ' && t[1..] == [c, ' '] + s;
    assert SkipSpace(t) == SkipSpace(t[1..]) == t[1..];
  }

  /** An operator and its right operand, in the course of a sum. */
  lemma {:induction false} ParsesTerm(m: Lib, l: Expr, op: Op, e: Expr, parent: Prec, rest: Input)
    requires Printable(e) && FollowsProduct(rest) && IsSumOp(op) && (parent == AddPrec || parent == SubPrec)
    ensures AddSubTail(m, l, [' ', Symbol(op), ' '] + (Operand(e, parent) + rest)) ==
            AddSubTail(m, Attach(l, op, e, parent), rest)
    decreases e, 11
  {
    if !NeedsParens(e, parent) && e.Add? {
      Regroup(Operand(e.left, AddPrec), " + ", Operand(e.right, AddPrec), rest);
      SpacedSymbol('+', Operand(e.right, AddPrec) + rest);
      ParsesTerm(m, l, op, e.left, AddPrec, " + " + (Operand(e.right, AddPrec) + rest));
      ParsesTerm(m, Attach(l, op, e.left, AddPrec), Plus, e.right, AddPrec, rest);
    } else if !NeedsParens(e, parent) && e.Sub? {
      Regroup(Operand(e.left, AddPrec), " - ", Operand(e.right, SubPrec), rest);
      SpacedSymbol('-', Operand(e.right, SubPrec) + rest);
      ParsesTerm(m, l, op, e.left, AddPrec, " - " + (Operand(e.right, SubPrec) + rest));
      ParsesTerm(m, Attach(l, op, e.left, AddPrec), Minus, e.right, SubPrec, rest);
    } else {
      ParsesTermOperand(m, e, parent, rest);
      ProductEnds(m, Reparsed(e), rest);
      TermStep(m, l, op, Reparsed(e), Operand(e, parent) + rest, SkipSpace(rest));
      TailsSkipSpace(m, Join(op, l, Reparsed(e)), rest);
    }
  }

  lemma TermStep(m: Lib, l: Expr, op: Op, r: Expr, s: Input, rest: Input)
    requires IsSumOp(op) && ParseMulDiv(m, s) == Ok((r, rest))
    ensures AddSubTail(m, l, [' ', Symbol(op), ' '] + s) == AddSubTail(m, Join(op, l, r), rest)
  {
    SpacedSymbol(Symbol(op), s);
    LeadingSpace(m, s);
  }

  lemma {:induction false} ParsesTermOperand(m: Lib, e: Expr, parent: Prec, rest: Input)
    requires Printable(e) && FollowsPower(rest) && (NeedsParens(e, parent) || (!e.Add? && !e.Sub?))
    ensures ParseMulDiv(m, Operand(e, parent) + rest) == MulDivTail(m, Reparsed(e), rest)
    decreases e, 9
  {
    if NeedsParens(e, parent) {
      ParsesPower(m, e, parent, rest);
      TailsSkipSpace(m, Reparsed(e), rest);
    } else {
      ParsesBareProduct(m, e, rest);
    }
  }

  // ----- the theorems -----

  /** Parsing what was printed reads all of it and gives the tree `Reparsed`. */
  lemma ParseOfPrint(m: Lib, e: Expr)
    requires Printable(e)
    ensures ParseAddSub(m, Print(e)) == Ok((Reparsed(e), ""))
    ensures Parse(m, Print(e)) == Ok(Reparsed(e))
  {
    assert Print(e) + "" == Print(e);
    ParsesSum(m, e, "");
  }
}
