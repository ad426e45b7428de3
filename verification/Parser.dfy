/** The parser as the program runs it: a position that moves over the characters, and a variable context. */
module Parser {
  import opened Wrappers
  import opened Expressions
  import opened Parsing

  /** The identities of the variables seen so far. */
  class ParseContext {
    var ids: map<string, nat>
    var next: nat

    /** Different names have different identities, all of them already handed out. */
    ghost predicate Valid()
      reads this
    {
      && (forall v | v in ids :: ids[v] < next)
      && forall v, w | v in ids && w in ids && ids[v] == ids[w] :: v == w
    }

    constructor ()
      ensures Valid() && ids == map[]
    {
      ids, next := map[], 0;
    }

    method Var(name: string) returns (id: nat)
      requires Valid()
      modifies this
      ensures Valid() && name in ids && ids[name] == id
      ensures forall v | v in old(ids) :: v in ids && ids[v] == old(ids)[v]
      ensures ids.Keys == old(ids).Keys + {name}
    {
      if name in ids {
        return ids[name];
      }
      id := next;
      ids := ids[name := id];
      next := next + 1;
    }
  }

  /** The outcome of a parsing method and the input it leaves are those of the parsing function. */
  ghost predicate Agrees(p: Parsed, r: Result<Expr, string>, rest: Input) {
    match p
    case Err(e) => r == Err(e)
    case Ok((a, t)) => r == Ok(a) && rest == t
  }

  class Cursor {
    const m: Lib
    const chars: string
    const ctx: ParseContext
    var pos: nat

    ghost predicate Valid()
      reads this, ctx
    {
      pos <= |chars| && ctx.Valid()
    }

    ghost function Rest(): Input
      reads this, ctx
      requires Valid()
    {
      chars[pos..]
    }

    constructor (m: Lib, chars: string, ctx: ParseContext)
      requires ctx.Valid()
      ensures Valid() && Rest() == chars && this.ctx == ctx && this.m == m && this.chars == chars
    {
      this.m, this.chars, this.ctx, pos := m, chars, ctx, 0;
    }

    predicate Peeks(c: char)
      reads this
    {
      pos < |chars| && chars[pos] == c
    }

    method SkipWs()
      requires Valid()
      modifies this`pos
      ensures Valid() && pos >= old(pos) && Rest() == SkipSpace(old(Rest()))
    {
      while pos < |chars| && IsWhitespace(chars[pos])
        invariant Valid() && pos >= old(pos) && SkipSpace(old(Rest())) == SkipSpace(Rest())
        decreases |chars| - pos
      {
        assert Rest()[1..] == chars[pos + 1..];
        pos := pos + 1;
      }
    }

    method Advance()
      requires Valid() && pos < |chars|
      modifies this`pos
      ensures Valid() && pos == old(pos) + 1 && Rest() == old(Rest())[1..]
    {
      pos := pos + 1;
    }

    method ExpectChar(c: char) returns (r: Result<(), string>)
      requires Valid()
      modifies this`pos
      ensures Valid() && pos >= old(pos)
      ensures match Expect(old(Rest()), c)
              case Err(e) => r == Err(e)
              case Ok(t) => r == Ok(()) && Rest() == t
    {
      SkipWs();
      if Peeks(c) {
        Advance();
        return Ok(());
      }
      return Err("expected a closing delimiter");
    }

    method ParseAddSub() returns (r: Result<Expr, string>)
      requires Valid()
      modifies this`pos, ctx
      ensures Valid() && pos >= old(pos) && (r.Ok? ==> pos > old(pos))
      ensures Agrees(Parsing.ParseAddSub(m, old(Rest())), r, Rest())
      decreases |chars| - pos, 5
    {
      ghost var start := Rest();
      r := ParseMulDiv();
      if r.Err? { return; }
      var left := r.value;
      while true
        invariant Valid() && pos > old(pos)
        invariant Parsing.ParseAddSub(m, start) == AddSubTail(m, left, Rest())
        decreases |chars| - pos
      {
        SkipWs();
        if !Peeks('+') && !Peeks('-') {
          return Ok(left);
        }
        var isSum := Peeks('+');
        Advance();
        r := ParseMulDiv();
        if r.Err? { return; }
        left := if isSum then Add(left, r.value) else Sub(left, r.value);
      }
    }

    method ParseMulDiv() returns (r: Result<Expr, string>)
      requires Valid()
      modifies this`pos, ctx
      ensures Valid() && pos >= old(pos) && (r.Ok? ==> pos > old(pos))
      ensures Agrees(Parsing.ParseMulDiv(m, old(Rest())), r, Rest())
      decreases |chars| - pos, 4
    {
      ghost var start := Rest();
      r := ParsePower();
      if r.Err? { return; }
      var left := r.value;
      while true
        invariant Valid() && pos > old(pos)
        invariant Parsing.ParseMulDiv(m, start) == MulDivTail(m, left, Rest())
        decreases |chars| - pos
      {
        SkipWs();
        if Peeks('*') || Peeks('/') {
          var isProduct := Peeks('*');
          Advance();
          r := ParsePower();
          if r.Err? { return; }
          left := if isProduct then Mul(left, r.value) else Div(left, r.value);
        } else if pos < |chars| && (IsNameChar(chars[pos]) || chars[pos] == '(' || chars[pos] == '[') {
          r := ParsePower();
          if r.Err? { return; }
          left := Mul(left, r.value);
        } else {
          return Ok(left);
        }
      }
    }

    method ParsePower() returns (r: Result<Expr, string>)
      requires Valid()
      modifies this`pos, ctx
      ensures Valid() && pos >= old(pos) && (r.Ok? ==> pos > old(pos))
      ensures Agrees(Parsing.ParsePower(m, old(Rest())), r, Rest())
      decreases |chars| - pos, 3
    {
      r := ParseUnary();
      if r.Err? { return; }
      var base := r.value;
      SkipWs();
      if Peeks('^') {
        Advance();
        r := ParsePower();
        if r.Err? { return; }
        return Ok(Pow(base, r.value));
      }
    }

    method ParseUnary() returns (r: Result<Expr, string>)
      requires Valid()
      modifies this`pos, ctx
      ensures Valid() && pos >= old(pos) && (r.Ok? ==> pos > old(pos))
      ensures Agrees(Parsing.ParseUnary(m, old(Rest())), r, Rest())
      decreases |chars| - pos, 2
    {
      SkipWs();
      if Peeks('-') {
        Advance();
        r := ParseUnary();
        if r.Err? { return; }
        return Ok(Neg(r.value));
      } else if Peeks('+') {
        Advance();
        r := ParseUnary();
      } else {
        r := ParseAtom();
      }
    }

    method ParseGroup(close: char) returns (r: Result<Expr, string>)
      requires Valid()
      modifies this`pos, ctx
      ensures Valid() && pos >= old(pos) && (r.Ok? ==> pos > old(pos))
      ensures Agrees(Parsing.ParseGroup(m, old(Rest()), close), r, Rest())
      decreases |chars| - pos, 6
    {
      r := ParseAddSub();
      if r.Err? { return; }
      var closed := ExpectChar(close);
      if closed.Err? { r := Err(closed.error); }
    }

    method ParseAtom() returns (r: Result<Expr, string>)
      requires Valid()
      modifies this`pos, ctx
      ensures Valid() && pos >= old(pos) && (r.Ok? ==> pos > old(pos))
      ensures Agrees(Parsing.ParseAtom(m, old(Rest())), r, Rest())
      decreases |chars| - pos, 1
    {
      SkipWs();
      if pos >= |chars| {
        return Err("unexpected end of expression");
      }
      var c := chars[pos];
      if c == '(' || c == '[' {
        Advance();
        r := ParseGroup(if c == '(' then ')' else ']');
      } else if IsNumberChar(c) {
        r := ParseNumber();
      } else if IsAlpha(c) || c == '_' {
        r := ParseName();
      } else if c == '|' {
        Advance();
        r := ParseGroup('|');
        if r.Ok? { r := Ok(Fn(Abs, r.value)); }
      } else {
        r := Err("unexpected character");
      }
    }

    /** Moves over the longest run of characters that satisfy p. */
    method Scan(p: char -> bool) returns (word: string)
      requires Valid()
      modifies this`pos
      ensures Valid()
      ensures var k := Span(old(Rest()), p);
              pos == old(pos) + k && word == old(Rest())[..k] && Rest() == old(Rest())[k..]
    {
      var start := pos;
      while pos < |chars| && p(chars[pos])
        invariant Valid() && start <= pos
        invariant Span(old(Rest()), p) == pos - start + Span(Rest(), p)
        decreases |chars| - pos
      {
        assert Rest()[1..] == chars[pos + 1..];
        pos := pos + 1;
      }
      word := chars[start..pos];
    }

    method ParseNumber() returns (r: Result<Expr, string>)
      requires Valid() && pos < |chars| && IsNumberChar(chars[pos])
      modifies this`pos
      ensures Valid() && pos > old(pos)
      ensures Agrees(Parsing.ParseNumber(old(Rest())), r, Rest())
    {
      var word := Scan(IsNumberChar);
      var value := NumberValue(word);
      r := if value.Some? then Ok(Num(value.value)) else Err("invalid number");
    }

    method ParseName() returns (r: Result<Expr, string>)
      requires Valid() && pos < |chars| && IsNameChar(chars[pos])
      modifies this`pos, ctx
      ensures Valid() && pos > old(pos)
      ensures Agrees(Parsing.ParseName(m, old(Rest())), r, Rest())
      decreases |chars| - pos, 0
    {
      var name := Scan(IsNameChar);
      var f := FunctionNamed(name);
      SkipWs();
      if f.Some? && Peeks('(') {
        Advance();
        r := ParseGroup(')');
        if r.Ok? { r := Ok(Fn(f.value, r.value)); }
      } else if name == "pi" {
        r := Ok(Num(m.pi));
      } else if name == "e" {
        r := Ok(Num(m.euler));
      } else {
        var _ := ctx.Var(name);
        r := Ok(Var(name));
      }
    }
  }

  /** `parse`, with a fresh context; whatever follows the expression is ignored. */
  method ParseText(m: Lib, s: string) returns (r: Result<Expr, string>)
    ensures r == Parse(m, s)
  {
    var ctx := new ParseContext();
    var cursor := new Cursor(m, s, ctx);
    r := cursor.ParseAddSub();
  }
}
