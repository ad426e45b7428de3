/** What the printed form of a literal is read back as. */
module PrintedNumbers {
  import opened Wrappers
  import opened Expressions
  import opened RealFacts
  import opened Printing
  import opened Parsing
  import opened RoundTrip
  import opened Juxtaposition

  function Scaled(x: real): nat
    requires x >= 0.0
  {
    (x * 10_000_000_000.0 + 0.5).Floor
  }

  /** x to ten decimals, halves up. */
  function ToTenDecimals(x: real): real
    requires x >= 0.0
  {
    Scaled(x) as real / 10_000_000_000.0
  }

  /** Zeros at the end of a fraction do not matter. */
  lemma {:induction false} StrippedValue(s: string)
    requires forall i | 0 <= i < |s| :: IsDigit(s[i])
    ensures forall i | 0 <= i < |StripZeros(s)| :: IsDigit(StripZeros(s)[i])
    ensures DigitsValue(StripZeros(s)) as real / PowerOfTen(|StripZeros(s)|) as real
         == DigitsValue(s) as real / PowerOfTen(|s|) as real
  {
    if s != [] && s[|s| - 1] == '0' {
      var t := s[..|s| - 1];
      StrippedValue(t);
      assert DigitsValue(s) == DigitsValue(t) * 10;
      CancelTen(DigitsValue(t), PowerOfTen(|t|));
    }
  }

  lemma CancelTen(a: nat, b: nat)
    requires b > 0
    ensures (a * 10) as real / (10 * b) as real == a as real / b as real
  {
    var q := a as real / b as real;
    assert q * b as real == a as real;
    assert q * (10.0 * b as real) == 10.0 * a as real;
  }

  lemma TenDigits()
    ensures PowerOfTen(10) == 10_000_000_000
  {
    assert PowerOfTen(5) == 100_000 && PowerOfTen(10) == 100_000 * PowerOfTen(5);
  }

  lemma Recomposed(scaled: nat)
    ensures var p := 10_000_000_000;
            (scaled / p) as real + (scaled % p) as real / p as real == scaled as real / 10_000_000_000.0
  {
    var p := 10_000_000_000;
    assert scaled == p * (scaled / p) + scaled % p;
  }

  /** Ten decimals after a whole number, with or without the zeros at their end. */
  lemma PointedTen(whole: nat, part: nat, strip: bool)
    requires part < PowerOfTen(10)
    ensures var s := Decimal(whole) + "." + (if strip then StripZeros(Fixed(part, 10)) else Fixed(part, 10));
            && NumberValue(s) == Some(whole as real + part as real / PowerOfTen(10) as real)
            && s != [] && IsNumberChar(s[0]) && Span(s, IsNumberChar) == |s|
  {
    hide Decimal, Fixed, DigitsValue, PowerOfTen, StripZeros, NumberValue, Span;
    FixedDigits(part, 10);
    DecimalDigits(whole);
    StrippedValue(Fixed(part, 10));
    PointedValue(Decimal(whole), if strip then StripZeros(Fixed(part, 10)) else Fixed(part, 10));
  }

  predicate IsExact(x: real)
    requires x >= 0.0
  {
    Scaled(x) as real == x * 10_000_000_000.0
  }

  lemma PrintedParts(x: real)
    requires x >= 0.0
    ensures var fraction := Fixed(Scaled(x) % 10_000_000_000, 10);
            PrintDecimals(x) ==
            Decimal(Scaled(x) / 10_000_000_000) + "." + (if IsExact(x) then StripZeros(fraction) else fraction)
  {
    hide Decimal, Fixed, StripZeros;
  }

  lemma ScaledBack(x: real)
    requires x >= 0.0
    ensures ToTenDecimals(x) == Scaled(x) as real / 10_000_000_000.0
  {
  }

  /** The digits printed for a magnitude are those of the magnitude to ten decimals. */
  lemma DecimalsPrinted(x: real)
    requires x >= 0.0
    ensures var s := PrintDecimals(x);
            && NumberValue(s) == Some(ToTenDecimals(x))
            && s != [] && IsNumberChar(s[0]) && Span(s, IsNumberChar) == |s|
  {
    hide *;
    var n := Scaled(x);
    PrintedParts(x);
    TenDigits();
    PointedTen(n / 10_000_000_000, n % 10_000_000_000, IsExact(x));
    Recomposed(n);
    ScaledBack(x);
  }

  lemma RoundedDown(x: real)
    requires x >= 0.0
    ensures -1.0 <= 2.0 * 10_000_000_000.0 * (ToTenDecimals(x) - x) <= 1.0
  {
    var n := (x * 10_000_000_000.0 + 0.5).Floor as real;
    assert ToTenDecimals(x) * 10_000_000_000.0 == n;
  }

  /**
    A literal that is not an integer is read back as the nearest number with ten
    decimals, and a negative one as the negation of one.
    */
  lemma FractionsRoundTrip(m: Lib, x: real)
    requires !IsInteger(x) && x > 0.0
    ensures Parse(m, PrintNum(x)) == Ok(Num(ToTenDecimals(x)))
    ensures Parse(m, PrintNum(-x)) == Ok(Neg(Num(ToTenDecimals(x))))
    ensures -1.0 <= 2.0 * 10_000_000_000.0 * (ToTenDecimals(x) - x) <= 1.0
  {
    var s := PrintDecimals(x);
    hide *;
    DecimalsPrinted(x);
    RoundedDown(x);
    FractionPrinted(x);
    NumberAlone(m, s, ToTenDecimals(x));
    NegatedAlone(m, s, ToTenDecimals(x));
  }

  lemma FractionPrinted(x: real)
    requires !IsInteger(x) && x > 0.0
    ensures PrintNum(x) == PrintDecimals(x) && PrintNum(-x) == "-" + PrintDecimals(x)
  {
    hide PrintDecimals;
    if IsInteger(-x) { IntegerNegated(-x); }
    assert -(-x) == x;
  }

  lemma IntegerNegated(y: real)
    requires IsInteger(y)
    ensures IsInteger(-y)
  {
    assert -y == (-y.Floor) as real;
  }

  /** The same with a minus sign before it. */
  lemma NegatedAlone(m: Lib, s: string, x: real)
    requires s != [] && IsNumberChar(s[0]) && Span(s, IsNumberChar) == |s| && NumberValue(s) == Some(x)
    ensures Parse(m, "-" + s) == Ok(Neg(Num(x)))
  {
    hide Span, NumberValue;
    var t := "-" + s;
    assert t[0] == '-' && t[1..] == s && s[..|s|] == s && s[|s|..] == [];
    assert ParseNumber(s) == Ok((Num(x), []));
    assert ParseUnary(m, s) == ParseAtom(m, s) == Ok((Num(x), []));
    var e := Neg(Num(x));
    assert ParseUnary(m, t) == Ok((e, []));
    assert ParsePower(m, t) == Ok((e, []));
    assert ParseMulDiv(m, t) == MulDivTail(m, e, []) == Ok((e, []));
    assert ParseAddSub(m, t) == AddSubTail(m, e, []);
  }

  /** A negative integer is read back as the negation of its magnitude. */
  lemma NegativesRoundTrip(m: Lib, n: nat)
    requires 0 < n <= I64_MAX
    ensures Parse(m, PrintNum(-(n as real))) == Ok(Neg(Num(n as real)))
  {
    var s := Decimal(n);
    DecimalDigits(n);
    NegativePrinted(n);
    hide PrintNum, Decimal, DigitsValue;
    assert s + [] == s && s[..|s|] == s;
    SpanPrefix(s, [], IsNumberChar);
    SpanPrefix(s, [], IsDigit);
    NegatedAlone(m, s, n as real);
  }

  lemma NegativePrinted(n: nat)
    requires 0 < n <= I64_MAX
    ensures PrintNum(-(n as real)) == "-" + Decimal(n)
  {
    var z: int := 0 - n;
    hide Decimal, PrintNum;
    PrintedInteger(z);
    assert -(n as real) == z as real;
  }

  lemma PrintedInteger(z: int)
    requires -I64_MAX <= z <= I64_MAX
    ensures PrintNum(z as real) == PrintInt(z)
  {
    hide PrintInt, PrintDecimals, ToI64, IsInteger;
    IntegerCast(z);
  }

  lemma IntegerCast(z: int)
    requires -I64_MAX <= z <= I64_MAX
    ensures IsInteger(z as real) && ToI64(z as real) == z
  {
    assert (z as real).Floor == z;
    assert -(z as real) == (-z) as real && (-(z as real)).Floor == -z;
  }

  // ----- multiples by 1/k -----

  lemma ReciprocalRecovered(k: nat)
    requires k >= 2
    ensures 1.0 / (1.0 / k as real) == k as real && 0.0 < 1.0 / k as real < 1.0
  {
    var q := 1.0 / k as real;
    assert q * k as real == 1.0;
    assert (1.0 / q) * q == 1.0;
    assert (1.0 / q - k as real) * q == 0.0;
  }

  lemma NiceReciprocals(c: real, k: nat)
    requires k >= 2 && c == 1.0 / k as real
    ensures NiceReciprocal(c) == NiceReciprocal(-c) == if k <= 100 then Some(k as real) else None
    ensures 0.0 < c < 1.0
  {
    ReciprocalRecovered(k);
    assert (k as real).Floor == k;
    assert -(-c) == c;
  }

  /** Products with a literal factor that has such a reciprocal. */
  lemma MultipleForms(c: real, r: real, e: Expr, k: int)
    requires 0.0 < c < 1.0 && NiceReciprocal(c) == Some(r) == NiceReciprocal(-c) && ToI64(r) == k
    requires !e.Num? && !e.Div?
    ensures FormOf(Num(c), e) == Quotient("", e, k) == FormOf(e, Num(c))
    ensures FormOf(Num(-c), e) == Quotient("-", e, k) == FormOf(e, Num(-c))
  {
    hide NiceReciprocal, ToI64;
  }

  lemma ProductPrinted(a: Expr, b: Expr)
    ensures var form := FormOf(a, b);
            match form
            case Quotient(sign, num, den) => Print(Mul(a, b)) == sign + Operand(num, DivPrec) + "/" + PrintInt(den)
            case Bare(e) => Print(Mul(a, b)) == Print(e)
            case Plain => Print(Mul(a, b)) == Operand(a, MulPrec) + "*" + Operand(b, MulPrec)
  {
    hide FormOf, PrintInt, Operand;
  }

  lemma DivisorPrinted(e: Expr, k: nat)
    requires k <= I64_MAX
    ensures Print(Div(e, Num(k as real))) == Operand(e, DivPrec) + "/" + PrintInt(k)
  {
    IntegerCast(k);
    hide ToI64, PrintDecimals, IsInteger, PrintInt;
    var n := Num(k as real);
    assert Operand(n, DivPrec) == Print(n) == PrintInt(k);
  }

  /**
    A multiple by 1/k, for k up to 100, is printed like the quotient by k, on either side
    of its factor and with either sign; beyond that it is printed as a product.
    */
  lemma MultiplesPrinted(e: Expr, c: real, k: nat)
    requires k >= 2 && c == 1.0 / k as real && !e.Num? && !e.Div?
    ensures k <= 100 ==>
              var q := Print(Div(e, Num(k as real)));
              && Print(Mul(Num(c), e)) == q == Print(Mul(e, Num(c)))
              && Print(Mul(Num(-c), e)) == "-" + q == Print(Mul(e, Num(-c)))
    ensures k > 100 ==> Print(Mul(Num(c), e)) == PrintNum(c) + "*" + Operand(e, MulPrec)
  {
    if k <= 100 {
      MultiplesAsQuotients(e, c, k);
    } else {
      NiceReciprocals(c, k);
      ProductPrinted(Num(c), e);
      LiteralOperand(c);
      hide NiceReciprocal, PrintNum, Operand, Print;
      assert FormOf(Num(c), e) == Plain;
    }
  }

  lemma MultiplesAsQuotients(e: Expr, c: real, k: nat)
    requires 2 <= k <= 100 && c == 1.0 / k as real && !e.Num? && !e.Div?
    ensures var q := Print(Div(e, Num(k as real)));
            && Print(Mul(Num(c), e)) == q == Print(Mul(e, Num(c)))
            && Print(Mul(Num(-c), e)) == "-" + q == Print(Mul(e, Num(-c)))
  {
    NiceReciprocals(c, k);
    IntegerCast(k);
    hide NiceReciprocal, ToI64, IsInteger, FormOf, Print, Operand, PrintInt;
    MultipleForms(c, k as real, e, k);
    DivisorPrinted(e, k);
    ProductPrinted(Num(c), e);
    ProductPrinted(e, Num(c));
    ProductPrinted(Num(-c), e);
    ProductPrinted(e, Num(-c));
    var shown := Operand(e, DivPrec) + "/" + PrintInt(k);
    assert "" + Operand(e, DivPrec) + "/" + PrintInt(k) == shown;
    assert "-" + Operand(e, DivPrec) + "/" + PrintInt(k) == "-" + shown;
  }

  lemma LiteralOperand(c: real)
    ensures Operand(Num(c), MulPrec) == PrintNum(c)
  {
    hide PrintNum;
    assert Operand(Num(c), MulPrec) == Print(Num(c));
  }

  /** A multiple of a quotient by 1/k is printed with the product of the divisors. */
  lemma QuotientMultiplesPrinted(e: Expr, d: nat, c: real, k: nat, n: nat)
    requires 2 <= k <= 100 && c == 1.0 / k as real && n == d * k && n <= I64_MAX
    ensures Print(Mul(Num(c), Div(e, Num(d as real)))) == Print(Div(e, Num(n as real)))
  {
    var q := Div(e, Num(d as real));
    NiceReciprocals(c, k);
    ProductCast(d, k, n);
    IntegerCast(n);
    hide NiceReciprocal, ToI64, IsInteger, Print, Operand, FormOf, PrintInt;
    QuotientForm(c, k as real, q, n);
    FormPrinted(Num(c), q, e, n);
  }

  lemma ProductCast(d: nat, k: nat, n: nat)
    requires n == d * k
    ensures Times(d as real, k as real) == n as real
  {
  }

  lemma FormPrinted(a: Expr, b: Expr, e: Expr, n: nat)
    requires FormOf(a, b) == Quotient("", e, n) && n <= I64_MAX
    ensures Print(Mul(a, b)) == Print(Div(e, Num(n as real)))
  {
    ProductPrinted(a, b);
    DivisorPrinted(e, n);
    hide FormOf, PrintInt, Operand;
    assert "" + Operand(e, DivPrec) == Operand(e, DivPrec);
  }

  lemma QuotientForm(c: real, r: real, b: Expr, n: int)
    requires 0.0 < c < 1.0 && NiceReciprocal(c) == Some(r)
    requires b.Div? && b.right.Num? && ToI64(Times(b.right.n, r)) == n
    ensures FormOf(Num(c), b) == Quotient("", b.left, n)
  {
    hide NiceReciprocal, ToI64, Times;
  }

  /** Two minus signs are not printed. */
  lemma DoubleSignPrinted(minus: Expr, e: Expr)
    requires minus == Num(-1.0)
    ensures Print(Mul(minus, Neg(e))) == Print(e) && Print(Mul(Neg(e), minus)) == Print(e)
  {
    BarePrinted(minus, Neg(e), e);
    BarePrinted(Neg(e), minus, e);
  }

  lemma BarePrinted(a: Expr, b: Expr, e: Expr)
    requires FormOf(a, b) == Bare(e)
    ensures Print(Mul(a, b)) == Print(e)
  {
    ProductPrinted(a, b);
    hide FormOf, Operand, PrintNum, PrintInt;
  }
}
