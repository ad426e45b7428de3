/** `collect_like_terms` and the Pythagorean rewrite. */
module LikeTerms {
  import opened Wrappers
  import opened Expressions
  import opened RealFacts
  import opened Simplification
  import opened Ordering

  // ----- the terms of a sum -----

  /** One summand: a coefficient, the rest of the term, and whether it is a plain constant. */
  datatype Term = Term(coeff: real, factor: Expr, isConst: bool)

  function Negated(ts: seq<Term>): (r: seq<Term>)
    ensures |r| == |ts|
  {
    if ts == [] then []
    else [ts[0].(coeff := -ts[0].coeff)] + Negated(ts[1..])
  }

  function ExtractTerms(e: Expr): seq<Term> {
    match e
    case Add(a, b) => ExtractTerms(a) + ExtractTerms(b)
    case Sub(a, b) => ExtractTerms(a) + Negated(ExtractTerms(b))
    case Num(n) => [Term(n, Num(1.0), true)]
    case Mul(a, b) =>
      if a.Num? then [Term(a.n, b, false)]
      else if b.Num? then [Term(b.n, a, false)]
      else [Term(1.0, e, false)]
    case Neg(a) => Negated(ExtractTerms(a))
    case _ => [Term(1.0, e, false)]
  }

  // ----- grouping by key -----

  /** The terms collected under one key: the summed coefficient and the first such term. */
  datatype Group = Group(key: string, coeff: real, first: Term)

  function KeyOf(m: Lib, t: Term): string {
    if t.isConst then "1" else m.show(t.factor)
  }

  function AddToGroups(m: Lib, gs: seq<Group>, t: Term): seq<Group> {
    if gs == [] then [Group(KeyOf(m, t), t.coeff, t)]
    else if gs[0].key == KeyOf(m, t) then [gs[0].(coeff := gs[0].coeff + t.coeff)] + gs[1..]
    else [gs[0]] + AddToGroups(m, gs[1..], t)
  }

  function GroupTerms(m: Lib, gs: seq<Group>, ts: seq<Term>): seq<Group>
    decreases |ts|
  {
    if ts == [] then gs else GroupTerms(m, AddToGroups(m, gs, ts[0]), ts[1..])
  }

  // ----- rebuilding the sum -----

  /** Constants last, otherwise by key. */
  predicate GroupLeq(a: Group, b: Group) {
    if a.first.isConst != b.first.isConst then b.first.isConst else StringLeq(a.key, b.key)
  }

  function InsertGroup(g: Group, gs: seq<Group>): seq<Group> {
    if gs == [] || GroupLeq(g, gs[0]) then [g] + gs
    else [gs[0]] + InsertGroup(g, gs[1..])
  }

  /** The groups with a nonzero coefficient, in canonical order. */
  function SortGroups(gs: seq<Group>): seq<Group> {
    if gs == [] then []
    else if gs[0].coeff == 0.0 then SortGroups(gs[1..])
    else InsertGroup(gs[0], SortGroups(gs[1..]))
  }

  /** The term |coeff| * factor, with the coefficient 1 left out. */
  function ScaledTerm(coeff: real, factor: Expr): Expr {
    var c := if coeff > 0.0 then coeff else -coeff;
    if c == 1.0 then factor else Mul(Num(c), factor)
  }

  function AddPositives(sum: Expr, gs: seq<Group>): Expr
    decreases |gs|
  {
    if gs == [] then sum
    else if gs[0].coeff > 0.0 then AddPositives(Add(sum, ScaledTerm(gs[0].coeff, gs[0].first.factor)), gs[1..])
    else AddPositives(sum, gs[1..])
  }

  function SubtractNegatives(sum: Expr, gs: seq<Group>): Expr
    decreases |gs|
  {
    if gs == [] then sum
    else if gs[0].coeff > 0.0 then SubtractNegatives(sum, gs[1..])
    else SubtractNegatives(Sub(sum, ScaledTerm(gs[0].coeff, gs[0].first.factor)), gs[1..])
  }

  function CollectAddPair(m: Lib, a: Expr, b: Expr): Expr {
    var gs := SortGroups(GroupTerms(m, [], ExtractTerms(a) + ExtractTerms(b)));
    if gs == [] then Num(0.0)
    else Simplify(m, SubtractNegatives(AddPositives(Num(0.0), gs), gs))
  }

  function CollectLikeTerms(m: Lib, e: Expr): Expr {
    match e
    case Add(a, b) => CollectAddPair(m, CollectLikeTerms(m, a), CollectLikeTerms(m, b))
    case Sub(a, b) => CollectAddPair(m, CollectLikeTerms(m, a), Neg(CollectLikeTerms(m, b)))
    case Mul(a, b) => Mul(CollectLikeTerms(m, a), CollectLikeTerms(m, b))
    case Neg(a) => CollectNegation(m, CollectLikeTerms(m, a))
    case Div(a, b) => Div(CollectLikeTerms(m, a), CollectLikeTerms(m, b))
    case Pow(a, b) => Pow(CollectLikeTerms(m, a), CollectLikeTerms(m, b))
    case Fn(f, a) => Fn(f, CollectLikeTerms(m, a))
    case _ => e
  }

  function CollectNegation(m: Lib, inner: Expr): Expr {
    match inner
    case Add(a, b) => CollectAddPair(m, Neg(a), Neg(b))
    case Sub(a, b) => Sub(b, a)
    case Neg(a) => a
    case Num(n) => Num(-n)
    case _ => Neg(inner)
  }

  // ----- sin^2 + cos^2 -----

  function FlattenSum(e: Expr): (ts: seq<Expr>)
    ensures ts != []
  {
    match e
    case Add(a, b) => FlattenSum(a) + FlattenSum(b)
    case Sub(a, b) => FlattenSum(a) + [Neg(b)]
    case _ => [e]
  }

  function RebuildSum(ts: seq<Expr>): Expr
    requires ts != []
  {
    if |ts| == 1 then ts[0] else Add(RebuildSum(ts[..|ts| - 1]), ts[|ts| - 1])
  }

  predicate IsSquareOf(e: Expr, f: Func) {
    e.Pow? && e.exponent == Num(2.0) && e.base.Fn? && e.base.f == f
  }

  /** The function whose square completes the square of sin or cos. */
  function Partner(f: Func): Func {
    if f == Sin then Cos else Sin
  }

  predicate Completes(m: Lib, square: Expr, e: Expr) {
    && (IsSquareOf(square, Sin) || IsSquareOf(square, Cos))
    && IsSquareOf(e, Partner(square.base.f))
    && m.show(e.base.arg) == m.show(square.base.arg)
  }

  /** The first index from j on at which a term completes `square`, or |ts|. */
  function FindPartner(m: Lib, ts: seq<Expr>, square: Expr, j: nat): (k: nat)
    requires j <= |ts|
    ensures j <= k <= |ts|
    ensures k < |ts| ==> Completes(m, square, ts[k])
    ensures forall l | j <= l < k :: !Completes(m, square, ts[l])
    decreases |ts| - j
  {
    if j == |ts| || Completes(m, square, ts[j]) then j else FindPartner(m, ts, square, j + 1)
  }

  /** The list with 1 for the square at i and without its partner at j. */
  function Paired(ts: seq<Expr>, i: nat, j: nat): (r: seq<Expr>)
    requires i < j < |ts|
    ensures |r| == |ts| - 1
  {
    ts[..i] + [Num(1.0)] + ts[i + 1..j] + ts[j + 1..]
  }

  /** The scan from index i on: each square with a later partner becomes 1 and the partner goes. */
  function PythagoreanScan(m: Lib, ts: seq<Expr>, i: nat): (r: (seq<Expr>, bool))
    requires i <= |ts|
    ensures ts != [] ==> r.0 != []
    decreases |ts| - i
  {
    if i == |ts| then (ts, false)
    else
      var j := FindPartner(m, ts, ts[i], i + 1);
      if j < |ts| then
        (PythagoreanScan(m, Paired(ts, i, j), i + 1).0, true)
      else PythagoreanScan(m, ts, i + 1)
  }

  /** `apply_trig_pythagorean`; the summands of a sum are not searched themselves. */
  function ApplyPythagoras(m: Lib, e: Expr): Expr {
    match e
    case Add(_, _) =>
      var (ts, found) := PythagoreanScan(m, FlattenSum(e), 0);
      if found then Simplify(m, CollectLikeTerms(m, RebuildSum(ts))) else RebuildSum(ts)
    case Sub(a, b) => Sub(ApplyPythagoras(m, a), ApplyPythagoras(m, b))
    case Mul(a, b) => Mul(ApplyPythagoras(m, a), ApplyPythagoras(m, b))
    case Div(a, b) => Div(ApplyPythagoras(m, a), ApplyPythagoras(m, b))
    case Pow(a, b) => Pow(ApplyPythagoras(m, a), ApplyPythagoras(m, b))
    case Neg(a) => Neg(ApplyPythagoras(m, a))
    case Fn(f, a) => Fn(f, ApplyPythagoras(m, a))
    case _ => e
  }

  // ----- the loops -----

  /** The scan as the program runs it, over a vector it shortens in place. */
  method PythagoreanScanLoop(m: Lib, input: seq<Expr>) returns (terms: seq<Expr>, found: bool)
    ensures (terms, found) == PythagoreanScan(m, input, 0)
  {
    hide Completes;
    terms, found := input, false;
    var i := 0;
    while i < |terms|
      invariant i <= |terms|
      invariant PythagoreanScan(m, input, 0) ==
                (PythagoreanScan(m, terms, i).0, found || PythagoreanScan(m, terms, i).1)
      decreases |terms| - i
    {
      var j := i + 1;
      while j < |terms| && !Completes(m, terms[i], terms[j])
        invariant i + 1 <= j <= |terms|
        invariant FindPartner(m, terms, terms[i], i + 1) == FindPartner(m, terms, terms[i], j)
      {
        j := j + 1;
      }
      if j < |terms| {
        terms := terms[..i] + [Num(1.0)] + terms[i + 1..j] + terms[j + 1..];
        found := true;
      }
      i := i + 1;
    }
  }

  /** Grouping as the program runs it: each term is added to the table in turn. */
  method GroupTermsLoop(m: Lib, ts: seq<Term>) returns (groups: seq<Group>)
    ensures groups == GroupTerms(m, [], ts)
  {
    groups := [];
    for i := 0 to |ts|
      invariant GroupTerms(m, groups, ts[i..]) == GroupTerms(m, [], ts)
    {
      assert ts[i..][0] == ts[i] && ts[i..][1..] == ts[i + 1..];
      groups := AddToGroups(m, groups, ts[i]);
    }
  }
}
