/** The `Display` form of expressions. */
module Printing {
  import opened Wrappers
  import opened Expressions
  import opened RealFacts

  // ----- numbers -----

  function Digit(d: nat): char
    requires d < 10
  {
    "0123456789"[d]
  }

  function Decimal(n: nat): (s: string)
    ensures s != []
  {
    if n < 10 then [Digit(n)] else Decimal(n / 10) + [Digit(n % 10)]
  }

  function Fixed(n: nat, width: nat): string {
    if width == 0 then [] else Fixed(n / 10, width - 1) + [Digit(n % 10)]
  }

  function StripZeros(s: string): string {
    if s != [] && s[|s| - 1] == '0' then StripZeros(s[..|s| - 1]) else s
  }

  const I64_MAX: int := 0x7FFF_FFFF_FFFF_FFFF

  /** The cast of a float to a 64-bit integer: towards zero, clamped to the range. */
  function ToI64(x: real): int {
    var t := if x >= 0.0 then x.Floor else -(-x).Floor;
    if t > I64_MAX then I64_MAX else if t < -I64_MAX - 1 then -I64_MAX - 1 else t
  }

  function PrintInt(i: int): string {
    if i < 0 then "-" + Decimal(-i) else Decimal(i)
  }

  /** A magnitude with at most ten decimals. */
  function PrintDecimals(size: real): string
    requires size >= 0.0
  {
    var scaled: nat := (size * 10_000_000_000.0 + 0.5).Floor;
    var fraction := Fixed(scaled % 10_000_000_000, 10);
    Decimal(scaled / 10_000_000_000) + "." +
    (if scaled as real == size * 10_000_000_000.0 then StripZeros(fraction) else fraction)
  }

  /** Integers without a decimal point; other numbers with at most ten decimals. */
  function PrintNum(n: real): string {
    if IsInteger(n) then PrintInt(ToI64(n))
    else if n < 0.0 then "-" + PrintDecimals(-n)
    else PrintDecimals(n)
  }

  // ----- precedence -----

  /** Operator levels: + -, right of -, * and /, right of /, ^, and atoms. */
  datatype Prec = AddPrec | SubPrec | MulPrec | DivPrec | PowPrec | AtomPrec

  function Rank(p: Prec): nat {
    match p
    case AddPrec => 0
    case SubPrec => 1
    case MulPrec => 2
    case DivPrec => 3
    case PowPrec => 4
    case AtomPrec => 5
  }

  function PrecOf(e: Expr): Prec {
    match e
    case Add(_, _) => AddPrec
    case Sub(_, _) => SubPrec
    case Mul(_, _) => MulPrec
    case Div(_, _) => DivPrec
    case Pow(_, _) => PowPrec
    case _ => AtomPrec
  }

  /** `parenthesize_if`: whether an operand is put in parentheses. */
  predicate NeedsParens(e: Expr, parent: Prec) {
    Rank(PrecOf(e)) < Rank(parent)
  }

  function Name(f: Func): string {
    match f
    case Sin => "sin"
    case Cos => "cos"
    case Tan => "tan"
    case Sqrt => "sqrt"
    case Exp => "exp"
    case Ln => "ln"
    case Abs => "abs"
    case Sinh => "sinh"
    case Cosh => "cosh"
    case Tanh => "tanh"
    case Asin => "asin"
    case Acos => "acos"
    case Atan => "atan"
  }

  // ----- products -----

  /** The reciprocal of |n|, if it is an integer of at most 100. */
  function NiceReciprocal(n: real): Option<real> {
    if n == 0.0 then None
    else
      var r := 1.0 / (if n < 0.0 then -n else n);
      if IsInteger(r) && r <= 100.0 then Some(r) else None
  }

  /** How a product is shown. */
  datatype ProductForm =
    | Plain
    | Quotient(sign: string, num: Expr, den: int)
    | Bare(e: Expr)

  /** A product with a literal factor 1/k is shown as a quotient by k. */
  function FormOf(a: Expr, b: Expr): (r: ProductForm)
    ensures r.Quotient? ==> r.num < Mul(a, b)
    ensures r.Bare? ==> r.e < Mul(a, b)
  {
    if a.Num? && a.n > 0.0 && a.n != 1.0 then
      match NiceReciprocal(a.n)
      case None => Plain
      case Some(r) =>
        if !b.Div? then Quotient("", b, ToI64(r))
        else if b.right.Num? then Quotient("", b.left, ToI64(Times(b.right.n, r)))
        else Plain
    else if a == Num(-1.0) && b.Neg? then Bare(b.arg)
    else if a.Num? && a.n < 0.0 && a.n != -1.0 then
      match NiceReciprocal(a.n)
      case None => Plain
      case Some(r) => Quotient("-", b, ToI64(r))
    else if b.Num? && b.n > 0.0 && b.n != 1.0 then
      match NiceReciprocal(b.n)
      case None => Plain
      case Some(r) => Quotient("", a, ToI64(r))
    else if b == Num(-1.0) && a.Neg? then Bare(a.arg)
    else if b.Num? && b.n < 0.0 && b.n != -1.0 then
      match NiceReciprocal(b.n)
      case None => Plain
      case Some(r) => Quotient("-", a, ToI64(r))
    else Plain
  }

  // ----- expressions -----

  function Print(e: Expr): string
    decreases e, 0
  {
    match e
    case Num(n) => PrintNum(n)
    case Var(v) => v
    case Add(a, b) => Operand(a, AddPrec) + " + " + Operand(b, AddPrec)
    case Sub(a, b) => Operand(a, AddPrec) + " - " + Operand(b, SubPrec)
    case Mul(a, b) =>
      (match FormOf(a, b)
       case Quotient(sign, num, den) => sign + Operand(num, DivPrec) + "/" + PrintInt(den)
       case Bare(inner) => Print(inner)
       case Plain => Operand(a, MulPrec) + "*" + Operand(b, MulPrec))
    case Div(a, b) => Operand(a, DivPrec) + "/" + Operand(b, DivPrec)
    case Pow(a, b) => Operand(a, PowPrec) + "^" + Operand(b, PowPrec)
    case Neg(a) => "-" + (if a.Num? || a.Var? || a.Fn? then Print(a) else "(" + Print(a) + ")")
    case Fn(Abs, a) => "|" + Print(a) + "|"
    case Fn(f, a) => Name(f) + "(" + Print(a) + ")"
  }

  function Operand(e: Expr, parent: Prec): string
    decreases e, 1
  {
    if NeedsParens(e, parent) then "(" + Print(e) + ")" else Print(e)
  }
}
