/**
  The recursive-descent parser, as functions of the remaining input.

  Variables are identified by name: within one parse the context gives equal names
  equal identities.
  */
module Parsing {
  import opened Wrappers
  import opened Expressions
  import Printing

  type Input = string

  /** A parsed expression and the input after it. */
  type Parsed = Result<(Expr, Input), string>

  // ----- characters -----

  predicate IsWhitespace(c: char) {
    c == ' ' || '\t' <= c <= '\r'
  }

  predicate IsDigit(c: char) {
    '0' <= c <= '9'
  }

  predicate IsAlpha(c: char) {
    'a' <= c <= 'z' || 'A' <= c <= 'Z'
  }

  predicate IsNameChar(c: char) {
    IsAlpha(c) || IsDigit(c) || c == '_'
  }

  predicate IsNumberChar(c: char) {
    IsDigit(c) || c == '.'
  }

  predicate StartsFactor(s: Input) {
    s != [] && (IsNameChar(s[0]) || s[0] == '(' || s[0] == '[')
  }

  predicate At(s: Input, c: char) {
    s != [] && s[0] == c
  }

  function SkipSpace(s: Input): (r: Input)
    ensures |r| <= |s|
    ensures r != [] ==> !IsWhitespace(r[0])
  {
    if s != [] && IsWhitespace(s[0]) then SkipSpace(s[1..]) else s
  }

  /** The length of the longest prefix made of characters that satisfy p. */
  function Span(s: Input, p: char -> bool): (k: nat)
    ensures k <= |s|
    ensures s != [] && p(s[0]) ==> k > 0
  {
    if s != [] && p(s[0]) then 1 + Span(s[1..], p) else 0
  }

  // ----- literals and names -----

  function DigitsValue(s: string): nat {
    if s == [] || !IsDigit(s[|s| - 1]) then 0
    else DigitsValue(s[..|s| - 1]) * 10 + (s[|s| - 1] - '0') as nat
  }

  /** The value of a string of digits and points: at most one point, at least one digit. */
  function NumberValue(s: string): Option<real> {
    var whole := Span(s, IsDigit);
    if whole == |s| then
      if whole == 0 then None else Some(DigitsValue(s) as real)
    else
      var fraction := s[whole + 1..];
      if Span(fraction, IsDigit) != |fraction| || whole + |fraction| == 0 then None
      else Some(DigitsValue(s[..whole]) as real + DigitsValue(fraction) as real / PowerOfTen(|fraction|) as real)
  }

  function PowerOfTen(k: nat): (p: nat)
    ensures p > 0
  {
    if k == 0 then 1 else 10 * PowerOfTen(k - 1)
  }

  function FunctionNamed(name: string): Option<Func> {
    if name == "sin" then Some(Sin)
    else if name == "cos" then Some(Cos)
    else if name == "tan" then Some(Tan)
    else if name == "sqrt" then Some(Sqrt)
    else if name == "exp" then Some(Exp)
    else if name == "ln" then Some(Ln)
    else if name == "abs" then Some(Abs)
    else if name == "sinh" then Some(Sinh)
    else if name == "cosh" then Some(Cosh)
    else if name == "tanh" then Some(Tanh)
    else if name == "asin" then Some(Asin)
    else if name == "acos" then Some(Acos)
    else if name == "atan" then Some(Atan)
    else None
  }

  function Expect(s: Input, c: char): (r: Result<Input, string>)
    ensures r.Ok? ==> |r.value| <= |s|
  {
    var t := SkipSpace(s);
    if At(t, c) then Ok(t[1..]) else Err("expected a closing delimiter")
  }

  // ----- the grammar -----

  /** Sums and differences, left to right. */
  function ParseAddSub(m: Lib, s: Input): (r: Parsed)
    ensures r.Ok? ==> |r.value.1| < |s|
    decreases |s|, 5
  {
    match ParseMulDiv(m, s)
    case Err(e) => Err(e)
    case Ok((left, rest)) => AddSubTail(m, left, rest)
  }

  function AddSubTail(m: Lib, left: Expr, s: Input): (r: Parsed)
    ensures r.Ok? ==> |r.value.1| <= |s|
    decreases |s|, 6
  {
    var t := SkipSpace(s);
    if At(t, '+') || At(t, '-') then
      match ParseMulDiv(m, t[1..])
      case Err(e) => Err(e)
      case Ok((right, rest)) =>
        AddSubTail(m, if t[0] == '+' then Add(left, right) else Sub(left, right), rest)
    else Ok((left, t))
  }

  /** Products and quotients, left to right; a factor may follow without an operator. */
  function ParseMulDiv(m: Lib, s: Input): (r: Parsed)
    ensures r.Ok? ==> |r.value.1| < |s|
    decreases |s|, 4
  {
    match ParsePower(m, s)
    case Err(e) => Err(e)
    case Ok((left, rest)) => MulDivTail(m, left, rest)
  }

  function MulDivTail(m: Lib, left: Expr, s: Input): (r: Parsed)
    ensures r.Ok? ==> |r.value.1| <= |s|
    decreases |s|, 6
  {
    var t := SkipSpace(s);
    if At(t, '*') || At(t, '/') then
      match ParsePower(m, t[1..])
      case Err(e) => Err(e)
      case Ok((right, rest)) =>
        MulDivTail(m, if t[0] == '*' then Mul(left, right) else Div(left, right), rest)
    else if StartsFactor(t) then
      match ParsePower(m, t)
      case Err(e) => Err(e)
      case Ok((right, rest)) => MulDivTail(m, Mul(left, right), rest)
    else Ok((left, t))
  }

  /** Powers, right to left. */
  function ParsePower(m: Lib, s: Input): (r: Parsed)
    ensures r.Ok? ==> |r.value.1| < |s|
    decreases |s|, 3
  {
    match ParseUnary(m, s)
    case Err(e) => Err(e)
    case Ok((base, rest)) =>
      var t := SkipSpace(rest);
      if At(t, '^') then
        match ParsePower(m, t[1..])
        case Err(e) => Err(e)
        case Ok((exp, rest')) => Ok((Pow(base, exp), rest'))
      else Ok((base, t))
  }

  function ParseUnary(m: Lib, s: Input): (r: Parsed)
    ensures r.Ok? ==> |r.value.1| < |s|
    decreases |s|, 2
  {
    var t := SkipSpace(s);
    if At(t, '-') then
      match ParseUnary(m, t[1..])
      case Err(e) => Err(e)
      case Ok((a, rest)) => Ok((Neg(a), rest))
    else if At(t, '+') then ParseUnary(m, t[1..])
    else ParseAtom(m, t)
  }

  function ParseAtom(m: Lib, s: Input): (r: Parsed)
    ensures r.Ok? ==> |r.value.1| < |s|
    decreases |s|, 1
  {
    var t := SkipSpace(s);
    if t == [] then Err("unexpected end of expression")
    else if t[0] == '(' then ParseGroup(m, t[1..], ')')
    else if t[0] == '[' then ParseGroup(m, t[1..], ']')
    else if IsNumberChar(t[0]) then ParseNumber(t)
    else if IsAlpha(t[0]) || t[0] == '_' then ParseName(m, t)
    else if t[0] == '|' then
      match ParseGroup(m, t[1..], '|')
      case Err(e) => Err(e)
      case Ok((a, rest)) => Ok((Fn(Abs, a), rest))
    else Err("unexpected character")
  }

  /** An expression up to its closing delimiter. */
  function ParseGroup(m: Lib, s: Input, close: char): (r: Parsed)
    ensures r.Ok? ==> |r.value.1| < |s|
    decreases |s|, 6
  {
    match ParseAddSub(m, s)
    case Err(e) => Err(e)
    case Ok((a, rest)) =>
      match Expect(rest, close)
      case Err(e) => Err(e)
      case Ok(rest') => Ok((a, rest'))
  }

  function ParseNumber(s: Input): (r: Parsed)
    requires s != [] && IsNumberChar(s[0])
    ensures r.Ok? ==> |r.value.1| < |s|
  {
    var k := Span(s, IsNumberChar);
    match NumberValue(s[..k])
    case None => Err("invalid number")
    case Some(n) => Ok((Num(n), s[k..]))
  }

  /** A known function applied to an argument, a named constant, or a variable. */
  function ParseName(m: Lib, s: Input): (r: Parsed)
    requires s != [] && IsNameChar(s[0])
    ensures r.Ok? ==> |r.value.1| < |s|
    decreases |s|, 0
  {
    var k := Span(s, IsNameChar);
    var name, rest := s[..k], SkipSpace(s[k..]);
    var f := FunctionNamed(name);
    if f.Some? && At(rest, '(') then
      match ParseGroup(m, rest[1..], ')')
      case Err(e) => Err(e)
      case Ok((a, rest')) => Ok((Fn(f.value, a), rest'))
    else if name == "pi" then Ok((Num(m.pi), rest))
    else if name == "e" then Ok((Num(m.euler), rest))
    else Ok((Var(name), rest))
  }

  /** `parse`: whatever follows the expression is ignored. */
  function Parse(m: Lib, s: string): Result<Expr, string> {
    match ParseAddSub(m, s)
    case Err(e) => Err(e)
    case Ok((a, _)) => Ok(a)
  }
}
