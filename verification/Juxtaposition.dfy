/**
  What the parser reads does not depend on what follows it, as long as that does not go on
  with it. So a factor that follows another one without an operator is multiplied by it.
  */
module Juxtaposition {
  import opened Wrappers
  import opened Expressions
  import opened Printing
  import opened Parsing
  import opened RoundTrip

  // ----- suffixes -----

  predicate IsSuffix(t: string, s: string) {
    |t| <= |s| && t == s[|s| - |t|..]
  }

  lemma SuffixOfSuffix(a: string, b: string, c: string)
    requires IsSuffix(a, b) && IsSuffix(b, c)
    ensures IsSuffix(a, c)
  {
  }

  /** A character that neither goes on with a name or number nor starts a call, a power or a space. */
  predicate StopsFactor(c: char) {
    c in "*)]|"
  }

  /** The input is r after q; r is replaced by r2, which starts with a character that stops a factor. */
  predicate Replaces(r: Input, r2: Input) {
    && (r == [] || !IsWhitespace(r[0]))
    && r2 != [] && StopsFactor(r2[0])
  }

  /** What is left after a sum is more than r, or r is replaced by something that starts with a closing delimiter. */
  predicate EndsBefore(rest: Input, r: Input, r2: Input) {
    |rest| > |r| || (|rest| == |r| && r2 != [] && r2[0] in ")]|")
  }

  lemma StopFacts(c: char)
    requires StopsFactor(c)
    ensures !IsWhitespace(c) && !IsNameChar(c) && !IsNumberChar(c) && c != '(' && c != '^' && c != '[' && c != '-'
  {
  }

  lemma HeadOf(q: string, r: Input)
    requires q != []
    ensures (q + r)[0] == q[0] && (q + r)[1..] == q[1..] + r
  {
  }

  lemma {:induction false} SkipsAlike(q: string, r: Input, r2: Input) returns (q2: string)
    requires Replaces(r, r2)
    ensures SkipSpace(q + r) == q2 + r && SkipSpace(q + r2) == q2 + r2 && IsSuffix(q2, q)
  {
    if q == [] {
      StopFacts(r2[0]);
      assert q + r == r && q + r2 == r2;
      q2 := q;
    } else {
      HeadOf(q, r);
      HeadOf(q, r2);
      if IsWhitespace(q[0]) {
        q2 := SkipsAlike(q[1..], r, r2);
      } else {
        q2 := q;
      }
    }
  }

  lemma {:induction false} SpansAlike(q: string, r: Input, r2: Input, p: char -> bool)
    requires r2 != [] && !p(r2[0]) && Span(q + r, p) <= |q|
    ensures Span(q + r2, p) == Span(q + r, p)
  {
    if q == [] {
      assert q + r2 == r2;
    } else {
      HeadOf(q, r);
      HeadOf(q, r2);
      if p(q[0]) { SpansAlike(q[1..], r, r2, p); }
    }
  }

  lemma SplitAt(q: string, r: Input, k: nat)
    requires k <= |q|
    ensures (q + r)[..k] == q[..k] && (q + r)[k..] == q[k..] + r && IsSuffix(q[k..], q)
  {
  }

  // ----- what is read before r is read before r2 -----

  /** The parse consumes all but q2 of q. */
  predicate ReadsBoth(p: Parsed, p2: Parsed, e: Expr, q: string, q2: string, r: Input, r2: Input) {
    p == Ok((e, q2 + r)) && p2 == Ok((e, q2 + r2)) && IsSuffix(q2, q)
  }

  lemma NumberAlike(q: string, r: Input, r2: Input) returns (q2: string)
    requires Replaces(r, r2) && q != [] && IsNumberChar(q[0])
    requires var p := ParseNumber(q + r); p.Ok? && |p.value.1| >= |r|
    ensures ReadsBoth(ParseNumber(q + r), ParseNumber(q + r2), ParseNumber(q + r).value.0, q, q2, r, r2)
  {
    var k := Span(q + r, IsNumberChar);
    StopFacts(r2[0]);
    SpansAlike(q, r, r2, IsNumberChar);
    SplitAt(q, r, k);
    SplitAt(q, r2, k);
    q2 := q[k..];
  }

  lemma {:induction false} NameAlike(m: Lib, q: string, r: Input, r2: Input) returns (q2: string)
    requires Replaces(r, r2) && q != [] && IsNameChar(q[0])
    requires var p := ParseName(m, q + r); p.Ok? && |p.value.1| >= |r|
    ensures ReadsBoth(ParseName(m, q + r), ParseName(m, q + r2), ParseName(m, q + r).value.0, q, q2, r, r2)
    decreases |q|, 0
  {
    hide ParseGroup, FunctionNamed;
    var k := Span(q + r, IsNameChar);
    StopFacts(r2[0]);
    SpansAlike(q, r, r2, IsNameChar);
    SplitAt(q, r, k);
    SplitAt(q, r2, k);
    var q1 := SkipsAlike(q[k..], r, r2);
    SuffixOfSuffix(q1, q[k..], q);
    if q1 == [] {
      assert q1 + r2 == r2 && q1 + r == r;
      q2 := q1;
    } else {
      HeadOf(q1, r);
      HeadOf(q1, r2);
      if FunctionNamed(q[..k]).Some? && q1[0] == '(' {
        q2 := CallAlike(m, q, q1, r, r2);
      } else {
        q2 := q1;
      }
    }
  }

  lemma {:induction false} CallAlike(m: Lib, q: string, q1: string, r: Input, r2: Input) returns (q2: string)
    requires Replaces(r, r2) && IsSuffix(q1, q) && q1 != [] && |q1| < |q|
    requires var p := ParseGroup(m, q1[1..] + r, ')'); p.Ok? && |p.value.1| >= |r|
    ensures ReadsBoth(ParseGroup(m, q1[1..] + r, ')'), ParseGroup(m, q1[1..] + r2, ')'),
                      ParseGroup(m, q1[1..] + r, ')').value.0, q, q2, r, r2)
    decreases |q1|, 7
  {
    q2 := GroupAlike(m, q1[1..], r, r2, ')');
    assert IsSuffix(q1[1..], q1);
    SuffixOfSuffix(q2, q1[1..], q1);
    SuffixOfSuffix(q2, q1, q);
  }

  lemma {:induction false} GroupAlike(m: Lib, q: string, r: Input, r2: Input, close: char) returns (q2: string)
    requires Replaces(r, r2)
    requires var p := ParseGroup(m, q + r, close); p.Ok? && |p.value.1| >= |r|
    ensures ReadsBoth(ParseGroup(m, q + r, close), ParseGroup(m, q + r2, close),
                      ParseGroup(m, q + r, close).value.0, q, q2, r, r2)
    decreases |q|, 6
  {
    hide ParseAddSub;
    var q1 := SumAlike(m, q, r, r2);
    var q3 := SkipsAlike(q1, r, r2);
    HeadOf(q3, r);
    HeadOf(q3, r2);
    q2 := q3[1..];
    assert IsSuffix(q2, q3);
    SuffixOfSuffix(q2, q3, q1);
    SuffixOfSuffix(q2, q1, q);
  }

  lemma {:induction false} AtomAlike(m: Lib, q: string, r: Input, r2: Input) returns (q2: string)
    requires Replaces(r, r2)
    requires var p := ParseAtom(m, q + r); p.Ok? && |p.value.1| >= |r|
    ensures ReadsBoth(ParseAtom(m, q + r), ParseAtom(m, q + r2), ParseAtom(m, q + r).value.0, q, q2, r, r2)
    decreases |q|, 1
  {
    hide ParseGroup, ParseName, ParseNumber;
    var q1 := SkipsAlike(q, r, r2);
    assert q1 != [];
    HeadOf(q1, r);
    HeadOf(q1, r2);
    var c := q1[0];
    if c == '(' || c == '[' || c == '|' {
      q2 := GroupAlike(m, q1[1..], r, r2, if c == '(' then ')' else if c == '[' then ']' else '|');
      assert IsSuffix(q1[1..], q1);
      SuffixOfSuffix(q2, q1[1..], q1);
    } else if IsNumberChar(c) {
      q2 := NumberAlike(q1, r, r2);
    } else {
      q2 := NameAlike(m, q1, r, r2);
    }
    SuffixOfSuffix(q2, q1, q);
  }

  lemma {:induction false} UnaryAlike(m: Lib, q: string, r: Input, r2: Input) returns (q2: string)
    requires Replaces(r, r2)
    requires var p := ParseUnary(m, q + r); p.Ok? && |p.value.1| >= |r|
    ensures ReadsBoth(ParseUnary(m, q + r), ParseUnary(m, q + r2), ParseUnary(m, q + r).value.0, q, q2, r, r2)
    decreases |q|, 2
  {
    hide ParseAtom;
    var q1 := SkipsAlike(q, r, r2);
    assert q1 != [];
    HeadOf(q1, r);
    HeadOf(q1, r2);
    if q1[0] == '-' || q1[0] == '+' {
      q2 := UnaryAlike(m, q1[1..], r, r2);
      assert IsSuffix(q1[1..], q1);
      SuffixOfSuffix(q2, q1[1..], q1);
    } else {
      q2 := AtomAlike(m, q1, r, r2);
    }
    SuffixOfSuffix(q2, q1, q);
  }

  /** A factor is read alike before r and before r2. */
  lemma {:induction false} PowerAlike(m: Lib, q: string, r: Input, r2: Input) returns (q2: string)
    requires Replaces(r, r2)
    requires var p := ParsePower(m, q + r); p.Ok? && |p.value.1| >= |r|
    ensures ReadsBoth(ParsePower(m, q + r), ParsePower(m, q + r2), ParsePower(m, q + r).value.0, q, q2, r, r2)
    decreases |q|, 3
  {
    hide ParseUnary;
    var q1 := UnaryAlike(m, q, r, r2);
    var q3 := SkipsAlike(q1, r, r2);
    SuffixOfSuffix(q3, q1, q);
    if At(q3 + r, '^') {
      HeadOf(q3, r);
      HeadOf(q3, r2);
      q2 := PowerAlike(m, q3[1..], r, r2);
      assert IsSuffix(q3[1..], q3);
      SuffixOfSuffix(q2, q3[1..], q3);
      SuffixOfSuffix(q2, q3, q);
    } else {
      StopFacts(r2[0]);
      if q3 != [] { HeadOf(q3, r); HeadOf(q3, r2); } else { assert q3 + r2 == r2; }
      q2 := q3;
    }
  }

  /** A product that ends before r is read alike. */
  lemma {:induction false} ProductAlike(m: Lib, q: string, r: Input, r2: Input) returns (q2: string)
    requires Replaces(r, r2)
    requires var p := ParseMulDiv(m, q + r); p.Ok? && EndsBefore(p.value.1, r, r2)
    ensures ReadsBoth(ParseMulDiv(m, q + r), ParseMulDiv(m, q + r2), ParseMulDiv(m, q + r).value.0, q, q2, r, r2)
    decreases |q|, 4
  {
    hide ParsePower, MulDivTail;
    var q1 := PowerAlike(m, q, r, r2);
    q2 := ProductTailAlike(m, ParsePower(m, q + r).value.0, q1, r, r2);
    SuffixOfSuffix(q2, q1, q);
  }

  lemma ProductStep(m: Lib, left: Expr, s: Input, t: Input)
    requires SkipSpace(s) == t
    ensures At(t, '*') || At(t, '/') ==>
              MulDivTail(m, left, s) ==
              match ParsePower(m, t[1..])
              case Err(x) => Err(x)
              case Ok((right, rest)) => MulDivTail(m, if t[0] == '*' then Mul(left, right) else Div(left, right), rest)
    ensures !At(t, '*') && !At(t, '/') && StartsFactor(t) ==>
              MulDivTail(m, left, s) ==
              match ParsePower(m, t)
              case Err(x) => Err(x)
              case Ok((right, rest)) => MulDivTail(m, Mul(left, right), rest)
    ensures !At(t, '*') && !At(t, '/') && !StartsFactor(t) ==> MulDivTail(m, left, s) == Ok((left, t))
  {
    hide ParsePower;
  }

  lemma {:induction false} ProductTailAlike(m: Lib, left: Expr, q: string, r: Input, r2: Input) returns (q2: string)
    requires Replaces(r, r2)
    requires var p := MulDivTail(m, left, q + r); p.Ok? && EndsBefore(p.value.1, r, r2)
    ensures ReadsBoth(MulDivTail(m, left, q + r), MulDivTail(m, left, q + r2), MulDivTail(m, left, q + r).value.0,
                      q, q2, r, r2)
    decreases |q|, 6
  {
    hide ParsePower, MulDivTail;
    var q1 := SkipsAlike(q, r, r2);
    ProductStep(m, left, q + r, q1 + r);
    ProductStep(m, left, q + r2, q1 + r2);
    if q1 == [] {
      assert q1 + r == r && q1 + r2 == r2;
      StopFacts(r2[0]);
      q2 := q1;
    } else {
      HeadOf(q1, r);
      HeadOf(q1, r2);
      if q1[0] == '*' || q1[0] == '/' {
        var q3 := PowerAlike(m, q1[1..], r, r2);
        var right := ParsePower(m, q1[1..] + r).value.0;
        q2 := ProductTailAlike(m, if q1[0] == '*' then Mul(left, right) else Div(left, right), q3, r, r2);
        SuffixInside(q2, q3, q1);
      } else if StartsFactor(q1) {
        var q3 := PowerAlike(m, q1, r, r2);
        q2 := ProductTailAlike(m, Mul(left, ParsePower(m, q1 + r).value.0), q3, r, r2);
        SuffixOfSuffix(q2, q3, q1);
      } else {
        q2 := q1;
      }
    }
    SuffixOfSuffix(q2, q1, q);
  }

  lemma SuffixInside(a: string, b: string, c: string)
    requires c != [] && IsSuffix(a, b) && IsSuffix(b, c[1..])
    ensures IsSuffix(a, c)
  {
  }

  lemma {:induction false} SumAlike(m: Lib, q: string, r: Input, r2: Input) returns (q2: string)
    requires Replaces(r, r2)
    requires var p := ParseAddSub(m, q + r); p.Ok? && EndsBefore(p.value.1, r, r2)
    ensures ReadsBoth(ParseAddSub(m, q + r), ParseAddSub(m, q + r2), ParseAddSub(m, q + r).value.0, q, q2, r, r2)
    decreases |q|, 5
  {
    hide ParseMulDiv, AddSubTail;
    var q1 := ProductAlike(m, q, r, r2);
    q2 := SumTailAlike(m, ParseMulDiv(m, q + r).value.0, q1, r, r2);
    SuffixOfSuffix(q2, q1, q);
  }

  lemma SumStep(m: Lib, left: Expr, s: Input, t: Input)
    requires SkipSpace(s) == t
    ensures At(t, '+') || At(t, '-') ==>
              AddSubTail(m, left, s) ==
              match ParseMulDiv(m, t[1..])
              case Err(x) => Err(x)
              case Ok((right, rest)) => AddSubTail(m, if t[0] == '+' then Add(left, right) else Sub(left, right), rest)
    ensures !At(t, '+') && !At(t, '-') ==> AddSubTail(m, left, s) == Ok((left, t))
  {
    hide ParseMulDiv;
  }

  lemma {:induction false} SumTailAlike(m: Lib, left: Expr, q: string, r: Input, r2: Input) returns (q2: string)
    requires Replaces(r, r2)
    requires var p := AddSubTail(m, left, q + r); p.Ok? && EndsBefore(p.value.1, r, r2)
    ensures ReadsBoth(AddSubTail(m, left, q + r), AddSubTail(m, left, q + r2), AddSubTail(m, left, q + r).value.0,
                      q, q2, r, r2)
    decreases |q|, 6
  {
    hide ParseMulDiv, AddSubTail;
    var q1 := SkipsAlike(q, r, r2);
    SumStep(m, left, q + r, q1 + r);
    SumStep(m, left, q + r2, q1 + r2);
    if q1 == [] {
      assert q1 + r == r && q1 + r2 == r2;
      q2 := q1;
    } else {
      HeadOf(q1, r);
      HeadOf(q1, r2);
      if q1[0] == '+' || q1[0] == '-' {
        var q3 := ProductAlike(m, q1[1..], r, r2);
        var right := ParseMulDiv(m, q1[1..] + r).value.0;
        q2 := SumTailAlike(m, if q1[0] == '+' then Add(left, right) else Sub(left, right), q3, r, r2);
        SuffixInside(q2, q3, q1);
      } else {
        q2 := q1;
      }
    }
    SuffixOfSuffix(q2, q1, q);
  }

  // ----- the law -----

  /** What is left after a factor is the end of the text, without leading spaces. */
  lemma FactorLeavesSuffix(m: Lib, s: Input)
    requires ParsePower(m, s).Ok?
    ensures var rest := ParsePower(m, s).value.1; IsSuffix(rest, s) && (rest == [] || !IsWhitespace(rest[0]))
  {
    assert s + [] == s;
    var q2 := PowerAlike(m, s, [], "*");
    assert q2 + [] == q2;
    FactorSkipsSpace(m, s);
  }

  lemma {:induction false} FactorSkipsSpace(m: Lib, s: Input)
    requires ParsePower(m, s).Ok?
    ensures var rest := ParsePower(m, s).value.1; rest == [] || !IsWhitespace(rest[0])
    decreases |s|
  {
    hide ParseUnary;
    var t := SkipSpace(ParseUnary(m, s).value.1);
    if At(t, '^') { FactorSkipsSpace(m, t[1..]); }
  }

  /** A name, a number or an opening delimiter comes next. */
  predicate BeginsFactor(s: Input) {
    s != [] && (IsAlpha(s[0]) || IsDigit(s[0]) || s[0] in "_([")
  }

  /** A product ends before anything else: an operator of lower rank, a point, a bar, a closing delimiter. */
  lemma ProductEnds(m: Lib, s: Input)
    requires ParsePower(m, s).Ok?
    requires var rest := ParsePower(m, s).value.1;
             !BeginsFactor(rest) && (rest == [] || (rest[0] != '*' && rest[0] != '/'))
    ensures ParseMulDiv(m, s) == ParsePower(m, s)
  {
    hide ParsePower;
    var left, rest := ParsePower(m, s).value.0, ParsePower(m, s).value.1;
    FactorSkipsSpace(m, s);
    assert SkipSpace(rest) == rest;
    ProductStep(m, left, rest, rest);
  }

  /**
    A factor that directly follows another one is multiplied by it: inserting `*` between
    them changes neither the tree nor the remaining input of the product they begin, of
    the sum it begins, and of the whole text.
    */
  lemma JuxtapositionIsProduct(m: Lib, s: Input)
    requires ParsePower(m, s).Ok? && BeginsFactor(ParsePower(m, s).value.1)
    ensures var rest := ParsePower(m, s).value.1;
            && IsSuffix(rest, s)
            && var marked := s[..|s| - |rest|] + "*" + rest;
               && ParseMulDiv(m, marked) == ParseMulDiv(m, s)
               && ParseAddSub(m, marked) == ParseAddSub(m, s)
               && Parse(m, marked) == Parse(m, s)
  {
    hide ParsePower, ParseMulDiv, ParseAddSub, Parse;
    var left, rest := ParsePower(m, s).value.0, ParsePower(m, s).value.1;
    FactorLeavesSuffix(m, s);
    var q := s[..|s| - |rest|];
    assert s == q + rest;
    FactorBeforeStar(m, q, rest, left);
    assert q + "*" + rest == q + ("*" + rest);
    MarkedAlike(m, s, q + ("*" + rest), left, rest);
  }

  lemma FactorBeforeStar(m: Lib, q: string, rest: Input, left: Expr)
    requires ParsePower(m, q + rest) == Ok((left, rest)) && rest != [] && !IsWhitespace(rest[0])
    ensures ParsePower(m, q + ("*" + rest)) == Ok((left, "*" + rest))
  {
    hide ParsePower;
    var star := "*" + rest;
    assert star[0] == '*';
    var q2 := PowerAlike(m, q, rest, star);
    assert |q2 + rest| == |rest| && q2 == [] && q2 + star == star;
  }

  lemma MarkedAlike(m: Lib, s: Input, marked: Input, left: Expr, rest: Input)
    requires ParsePower(m, s) == Ok((left, rest)) && ParsePower(m, marked) == Ok((left, "*" + rest))
    requires StartsFactor(rest) && !IsWhitespace(rest[0])
    ensures ParseMulDiv(m, marked) == ParseMulDiv(m, s)
    ensures ParseAddSub(m, marked) == ParseAddSub(m, s) && Parse(m, marked) == Parse(m, s)
  {
    var star := "*" + rest;
    assert star[0] == '*' && star[1..] == rest && SkipSpace(star) == star && SkipSpace(rest) == rest;
    assert !At(rest, '*') && !At(rest, '/');
    hide ParsePower, MulDivTail, SkipSpace;
    ProductStep(m, left, star, star);
    ProductStep(m, left, rest, rest);
  }

  // ----- printed factors -----

  /** The end of a factor is a place where it stops, whatever factor follows in parentheses. */
  lemma {:induction false} NumberBeforeName(m: Lib, n: real, v: string)
    requires Printable(Num(n)) && OrdinaryName(v)
    ensures ParsePower(m, Print(Num(n)) + v) == Ok((Num(n), v))
  {
    var d := Decimal(n.Floor);
    assert Print(Num(n)) == d;
    DecimalDigits(n.Floor);
    var s := d + v;
    assert s[0] == d[0];
    SpanPrefix(d, v, IsNumberChar);
    assert s[..|d|] == d && s[|d|..] == v;
    assert d + [] == d;
    SpanPrefix(d, [], IsDigit);
    assert ParseAtom(m, s) == ParseNumber(s);
    assert SkipSpace(v) == v;
  }

  /** A literal before the name of a variable is its coefficient: 2x is 2*x. */
  lemma CoefficientRead(m: Lib, n: real, v: string)
    requires Printable(Num(n)) && OrdinaryName(v)
    ensures Parse(m, Print(Num(n)) + v) == Ok(Mul(Num(n), Var(v)))
  {
    var s, t := Print(Num(n)) + v, Print(Num(n)) + "*" + v;
    NumberBeforeName(m, n, v);
    JuxtapositionIsProduct(m, s);
    assert s[..|s| - |v|] == Print(Num(n));
    ParseOfPrint(m, Mul(Num(n), Var(v)));
    PrintablePlain(Num(n), Var(v));
    assert Print(Mul(Num(n), Var(v))) == t;
    assert Reparsed(Num(n)) == Num(n) && Reparsed(Var(v)) == Var(v);
    assert Attach(Num(n), Star, Var(v), MulPrec) == Mul(Num(n), Var(v));
  }

  /** Two expressions in parentheses: the text is read as the product of what each is read as. */
  lemma GroupsRead(m: Lib, a: Expr, b: Expr)
    requires Printable(a) && Printable(b)
    ensures Parse(m, "(" + Print(a) + ")(" + Print(b) + ")") == Ok(Mul(Reparsed(a), Reparsed(b)))
  {
    var second := "(" + Print(b) + ")";
    var s := "(" + Print(a) + ")" + second;
    assert s == "(" + Print(a) + ")(" + Print(b) + ")";
    GroupBefore(m, a, second);
    JuxtapositionIsProduct(m, s);
    assert s[..|s| - |second|] == "(" + Print(a) + ")";
    GroupTimesGroup(m, a, b);
  }

  lemma GroupBefore(m: Lib, a: Expr, tail: Input)
    requires Printable(a) && (tail == [] || (!IsWhitespace(tail[0]) && tail[0] != '^'))
    ensures ParsePower(m, "(" + Print(a) + ")" + tail) == Ok((Reparsed(a), tail))
  {
    hide ParseUnary, Print, Reparsed;
    ParsesParenthesized(m, a, tail);
    assert SkipSpace(tail) == tail;
  }

  /** The same with `*` written out. */
  lemma GroupTimesGroup(m: Lib, a: Expr, b: Expr)
    requires Printable(a) && Printable(b)
    ensures Parse(m, "(" + Print(a) + ")" + "*" + ("(" + Print(b) + ")")) == Ok(Mul(Reparsed(a), Reparsed(b)))
  {
    var second := "(" + Print(b) + ")";
    var star := "*" + second;
    assert "(" + Print(a) + ")" + "*" + second == "(" + Print(a) + ")" + star;
    GroupBefore(m, a, star);
    GroupBefore(m, b, []);
    assert second + [] == second && star[0] == '*' && star[1..] == second;
    hide ParsePower, Print, Reparsed;
    var text, p := "(" + Print(a) + ")" + star, Mul(Reparsed(a), Reparsed(b));
    ProductStep(m, Reparsed(a), star, star);
    assert ParseMulDiv(m, text) == MulDivTail(m, Reparsed(a), star);
    assert MulDivTail(m, p, []) == Ok((p, [])) && AddSubTail(m, p, []) == Ok((p, []));
    hide ParseMulDiv, MulDivTail;
    assert ParseAddSub(m, text) == AddSubTail(m, p, []);
  }

  // ----- signs and spaces -----

  /** A leading space, tab or line break is skipped, and a leading + changes nothing. */
  lemma LeadingSignIgnored(m: Lib, s: Input, c: char)
    requires c in " \t\n\r"
    ensures ParseAddSub(m, [c] + s) == ParseAddSub(m, s) == ParseAddSub(m, "+" + s)
    ensures Parse(m, [c] + s) == Parse(m, s) == Parse(m, "+" + s)
  {
    var space := [c] + s;
    assert space[0] == c && space[1..] == s && SkipSpace(space) == SkipSpace(s);
    assert ParseUnary(m, space) == ParseUnary(m, s);
    assert ParsePower(m, space) == ParsePower(m, s);
    assert ParseMulDiv(m, space) == ParseMulDiv(m, s);
    var t := "+" + s;
    assert t[0] == '+' && t[1..] == s && SkipSpace(t) == t;
    assert ParseUnary(m, t) == ParseUnary(m, s);
    assert ParsePower(m, t) == ParsePower(m, s);
    assert ParseMulDiv(m, t) == ParseMulDiv(m, s);
  }

  // ----- delimiters -----

  /**
    What is read in parentheses is read alike in brackets, and between bars as an absolute
    value, whatever follows.
    */
  lemma DelimitersAlike(m: Lib, q: string, e: Expr, rest: Input)
    requires ParseUnary(m, "(" + q + ")" + rest) == Ok((e, rest))
    ensures ParseUnary(m, "[" + q + "]" + rest) == Ok((e, rest))
    ensures ParseUnary(m, "|" + q + "|" + rest) == Ok((Fn(Abs, e), rest))
  {
    OpensGroup(m, '(', q, ')', rest);
    OpensGroup(m, '[', q, ']', rest);
    OpensGroup(m, '|', q, '|', rest);
    CloserReplaced(m, q, e, rest, ']');
    CloserReplaced(m, q, e, rest, '|');
  }

  lemma OpensGroup(m: Lib, open: char, q: string, close: char, rest: Input)
    requires open in "([|"
    ensures var g := ParseGroup(m, q + ([close] + rest), if open == '(' then ')' else if open == '[' then ']' else '|');
            ParseUnary(m, [open] + q + [close] + rest) ==
            if open == '|' && g.Ok? then Ok((Fn(Abs, g.value.0), g.value.1)) else g
  {
    hide ParseGroup;
    var s, inner := [open] + q + [close] + rest, q + ([close] + rest);
    assert s == [open] + inner && s[0] == open && s[1..] == inner;
    assert SkipSpace(s) == s && ParseUnary(m, s) == ParseAtom(m, s);
  }

  lemma CloserReplaced(m: Lib, q: string, e: Expr, rest: Input, close: char)
    requires ParseGroup(m, q + ([')'] + rest), ')') == Ok((e, rest)) && close in "]|"
    ensures ParseGroup(m, q + ([close] + rest), close) == Ok((e, rest))
  {
    hide ParseAddSub;
    var r, r2 := [')'] + rest, [close] + rest;
    assert r[0] == ')' && r2[0] == close && r[1..] == rest == r2[1..];
    var left := ParseAddSub(m, q + r).value.1;
    assert |SkipSpace(left)| == |rest| + 1;
    var q2 := SumAlike(m, q, r, r2);
    var q3 := SkipsAlike(q2, r, r2);
    assert |q3 + r| == |r| && q3 == [] && q3 + r == r && q3 + r2 == r2;
    assert SkipSpace(q2 + r2) == r2;
  }

  // ----- literals and names -----

  lemma {:induction false} FixedDigits(k: nat, width: nat)
    requires k < PowerOfTen(width)
    ensures |Fixed(k, width)| == width && DigitsValue(Fixed(k, width)) == k
    ensures forall i | 0 <= i < width :: IsDigit(Fixed(k, width)[i])
  {
    if width > 0 {
      FixedDigits(k / 10, width - 1);
      DigitFacts(k % 10);
      var s := Fixed(k, width);
      assert s[..|s| - 1] == Fixed(k / 10, width - 1) && s[|s| - 1] == Digit(k % 10);
    }
  }

  /** A decimal point and `width` digits k after n are the number n + k / 10^width. */
  lemma DecimalsRead(m: Lib, n: nat, k: nat, width: nat)
    requires width > 0 && k < PowerOfTen(width)
    ensures Parse(m, Decimal(n) + "." + Fixed(k, width)) == Ok(Num(n as real + k as real / PowerOfTen(width) as real))
  {
    var d, x := Decimal(n), Fixed(k, width);
    DecimalDigits(n);
    FixedDigits(k, width);
    hide Decimal, Fixed, DigitsValue, PowerOfTen, Parse, NumberValue, Span;
    PointedValue(d, x);
    NumberAlone(m, d + "." + x, n as real + k as real / PowerOfTen(width) as real);
  }

  lemma PointedValue(d: string, x: string)
    requires d != [] && (forall i | 0 <= i < |d| :: IsDigit(d[i])) && forall i | 0 <= i < |x| :: IsDigit(x[i])
    ensures var s := d + "." + x;
            && NumberValue(s) == Some(DigitsValue(d) as real + DigitsValue(x) as real / PowerOfTen(|x|) as real)
            && s != [] && IsNumberChar(s[0]) && Span(s, IsNumberChar) == |s|
  {
    hide DigitsValue, PowerOfTen, Span, NumberValue;
    var s := d + "." + x;
    assert s == d + (['.'] + x) && s + [] == s && x + [] == x;
    SpanPrefix(s, [], IsNumberChar);
    SpanPrefix(d, ['.'] + x, IsDigit);
    SpanPrefix(x, [], IsDigit);
    assert s[..|d|] == d && s[|d| + 1..] == x;
    PointAt(s, |d|);
  }

  lemma PointAt(s: string, k: nat)
    requires k < |s| && Span(s, IsDigit) == k
    ensures var x := s[k + 1..];
            NumberValue(s) ==
            if Span(x, IsDigit) != |x| || k + |x| == 0 then None
            else Some(DigitsValue(s[..k]) as real + DigitsValue(x) as real / PowerOfTen(|x|) as real)
  {
    hide DigitsValue, PowerOfTen, Span;
  }

  /** A text that is a number is read as that number. */
  lemma NumberAlone(m: Lib, s: string, x: real)
    requires s != [] && IsNumberChar(s[0]) && Span(s, IsNumberChar) == |s| && NumberValue(s) == Some(x)
    ensures Parse(m, s) == Ok(Num(x))
  {
    assert s[..|s|] == s && s[|s|..] == [];
    assert ParseNumber(s) == Ok((Num(x), []));
    assert ParseUnary(m, s) == ParseAtom(m, s) == Ok((Num(x), []));
    assert ParsePower(m, s) == Ok((Num(x), []));
    assert ParseMulDiv(m, s) == MulDivTail(m, Num(x), []) == Ok((Num(x), []));
    assert ParseAddSub(m, s) == AddSubTail(m, Num(x), []);
  }

  /** A second point makes a number invalid. */
  lemma SecondPointInvalid(m: Lib, a: string, b: string, c: string)
    requires forall i | 0 <= i < |a| :: IsDigit(a[i])
    requires forall i | 0 <= i < |b| :: IsDigit(b[i])
    ensures NumberValue(a + "." + b + "." + c) == None
  {
    var s, tail := a + "." + b + "." + c, b + (['.'] + c);
    assert s == a + (['.'] + tail);
    SpanPrefix(a, ['.'] + tail, IsDigit);
    SpanPrefix(b, ['.'] + c, IsDigit);
    assert s[|a| + 1..] == tail;
  }

  /** The names pi and e are numbers, and every other ordinary name that is not called is a variable. */
  lemma NamesRead(m: Lib, v: string)
    requires v != [] && (IsAlpha(v[0]) || v[0] == '_') && forall i | 0 <= i < |v| :: IsNameChar(v[i])
    ensures Parse(m, v) == Ok(if v == "pi" then Num(m.pi) else if v == "e" then Num(m.euler) else Var(v))
  {
    var e := if v == "pi" then Num(m.pi) else if v == "e" then Num(m.euler) else Var(v);
    assert v + [] == v;
    SpanPrefix(v, [], IsNameChar);
    assert v[..|v|] == v && v[|v|..] == [] && SkipSpace(v) == v;
    assert ParseName(m, v) == Ok((e, []));
    assert ParseUnary(m, v) == ParseAtom(m, v) == Ok((e, []));
    assert ParsePower(m, v) == Ok((e, []));
    assert ParseMulDiv(m, v) == MulDivTail(m, e, []) == Ok((e, []));
    assert ParseAddSub(m, v) == AddSubTail(m, e, []);
  }

  /** A text without an expression is an error. */
  lemma NothingRead(m: Lib, s: Input)
    requires SkipSpace(s) == []
    ensures Parse(m, s) == Err("unexpected end of expression")
  {
    assert ParseUnary(m, s) == ParseAtom(m, []) == Err("unexpected end of expression");
    assert ParsePower(m, s) == Err("unexpected end of expression");
    assert ParseMulDiv(m, s) == Err("unexpected end of expression");
  }
}
