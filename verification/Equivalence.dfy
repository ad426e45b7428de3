/** `canonicalize` and `equivalent`: when the answer is true, the two expressions agree. */
module Equivalence {
  import opened Wrappers
  import opened Expressions
  import opened Iteration
  import opened Simplification
  import opened SimplificationSound
  import opened Rewriting
  import opened RewritingSound
  import opened LikeTerms
  import opened LikeTermsSound

  /** One round of the `canonicalize` loop. */
  function Round(m: Lib, e: Expr): Expr {
    var identities := CancelExpLog(ApplyPythagoras(m, e));
    var collected := Simplify(m, CollectLikeTerms(m, Expand(m, identities)));
    var structural := CanonicalizeDiv(NegDistribute(collected));
    Simplify(m, CollectLikeTerms(m, structural))
  }

  function RoundOf(m: Lib): Expr -> Expr {
    (e: Expr) => Round(m, e)
  }

  lemma RoundOfIsRound(m: Lib, e: Expr)
    ensures RoundOf(m)(e) == Round(m, e)
  {
  }

  /** The loop, when it stops, stops with a result that one more round leaves unchanged. */
  ghost predicate CanonicalizesTo(m: Lib, e: Expr, r: Expr) {
    ReachesFixpoint(RoundOf(m), e, r)
  }

  /**
    `equivalent`, as a relation over its terminating runs: structural equality, equal
    canonical forms, or a difference whose canonical form is 0.
    */
  ghost predicate Equivalent(m: Lib, a: Expr, b: Expr) {
    a == b || exists ca: Expr, cb: Expr :: EquivalentVia(m, a, b, ca, cb)
  }

  ghost predicate EquivalentVia(m: Lib, a: Expr, b: Expr, ca: Expr, cb: Expr) {
    && CanonicalizesTo(m, a, ca) && CanonicalizesTo(m, b, cb)
    && (ca == cb || CanonicalizesTo(m, Sub(ca, cb), Num(0.0)))
  }

  /** The loop of `canonicalize`, cut off after `limit` rounds. */
  method Canonicalize(m: Lib, e: Expr, limit: nat) returns (r: Option<Expr>)
    ensures r.Some? ==> CanonicalizesTo(m, e, r.value)
    ensures r.None? ==> forall k: nat | k < limit :: StillMoves(RoundOf(m), e, k)
  {
    r := IterateToFixpoint(RoundOf(m), e, limit);
  }

  /** `equivalent` over the cut-off loop: its answer when it gives one; None when a loop was cut off. */
  method CheckEquivalent(m: Lib, a: Expr, b: Expr, limit: nat) returns (r: Option<bool>)
    ensures r.Some? ==> (r.value <==> Equivalent(m, a, b))
    ensures a == b ==> r == Some(true)
  {
    if a == b {
      return Some(true);
    }
    var ca := Canonicalize(m, a, limit);
    var cb := Canonicalize(m, b, limit);
    if ca.None? || cb.None? {
      return None;
    }
    if ca == cb {
      assert EquivalentVia(m, a, b, ca.value, cb.value);
      return Some(true);
    }
    var diff := Canonicalize(m, Sub(ca.value, cb.value), limit);
    if diff.None? {
      return None;
    }
    DifferenceDecides(m, a, b, ca.value, cb.value, diff.value);
    return Some(diff.value == Num(0.0));
  }

  lemma DifferenceDecides(m: Lib, a: Expr, b: Expr, ca: Expr, cb: Expr, d: Expr)
    requires a != b && ca != cb && CanonicalizesTo(m, a, ca) && CanonicalizesTo(m, b, cb)
    requires CanonicalizesTo(m, Sub(ca, cb), d)
    ensures Equivalent(m, a, b) <==> d == Num(0.0)
  {
    if d == Num(0.0) { assert EquivalentVia(m, a, b, ca, cb); }
    if Equivalent(m, a, b) {
      var ca', cb' :| EquivalentVia(m, a, b, ca', cb');
      CanonicalFormUnique(m, a, ca, ca');
      CanonicalFormUnique(m, b, cb, cb');
      CanonicalFormUnique(m, Sub(ca, cb), d, Num(0.0));
    }
  }

  /** An expression has at most one canonical form. */
  lemma CanonicalFormUnique(m: Lib, e: Expr, r: Expr, s: Expr)
    requires CanonicalizesTo(m, e, r) && CanonicalizesTo(m, e, s)
    ensures r == s
  {
    FixpointUnique(RoundOf(m), e, r, s);
  }

  // ----- soundness -----

  function Identities(m: Lib, e: Expr): Expr {
    CancelExpLog(ApplyPythagoras(m, e))
  }

  function Structural(m: Lib, e: Expr): Expr {
    CanonicalizeDiv(NegDistribute(Simplify(m, CollectLikeTerms(m, Expand(m, Identities(m, e))))))
  }

  /** Whatever one round of the loop merges is related. */
  ghost predicate RoundKeyed(m: Lib, rel: Relation, e: Expr) {
    && PythagorasKeyed(m, rel, e)
    && CollectKeyed(m, rel, Expand(m, Identities(m, e)))
    && CollectKeyed(m, rel, Structural(m, e))
  }

  ghost predicate KeyedAfter(m: Lib, rel: Relation, e: Expr, k: nat) {
    RoundKeyed(m, rel, Iterate(RoundOf(m), e, k))
  }

  /** Whatever is merged in any round of the loop on `e` is related. */
  ghost predicate RunKeyed(m: Lib, rel: Relation, e: Expr) {
    forall k: nat :: KeyedAfter(m, rel, e, k)
  }

  /** Whatever `equivalent` merges, in the two loops and in the one on the difference, is related. */
  ghost predicate EquivalentKeyed(m: Lib, rel: Relation, a: Expr, b: Expr) {
    && RunKeyed(m, rel, a) && RunKeyed(m, rel, b)
    && forall ca: Expr, cb: Expr | EquivalentVia(m, a, b, ca, cb) && ca != cb :: RunKeyed(m, rel, Sub(ca, cb))
  }

  lemma RunKeyedMonotone(m: Lib, rel: Relation, rel': Relation, e: Expr)
    requires Stronger(rel, rel') && RunKeyed(m, rel, e)
    ensures RunKeyed(m, rel', e)
  {
    forall k: nat ensures KeyedAfter(m, rel', e, k) {
      assert KeyedAfter(m, rel, e, k);
      var p := Iterate(RoundOf(m), e, k);
      PythagorasKeyedMonotone(m, rel, rel', p);
      CollectKeyedMonotone(m, rel, rel', Expand(m, Identities(m, p)));
      CollectKeyedMonotone(m, rel, rel', Structural(m, p));
    }
  }

  lemma RoundRefines(m: Lib, env: Env, e: Expr)
    requires Lawful(m) && RoundKeyed(m, AgreeAt(m, env), e)
    ensures Refines(m, env, e, Round(m, e))
  {
    var e1 := ApplyPythagoras(m, e);
    ApplyPythagorasRefines(m, env, e);
    var e2 := CancelExpLog(e1);
    CancelExpLogRefines(m, env, e1);
    var e3 := Expand(m, e2);
    ExpandRefines(m, env, e2);
    var e4 := CollectLikeTerms(m, e3);
    CollectLikeTermsRefines(m, env, e3);
    var e5 := Simplify(m, e4);
    SimplifyRefines(m, env, e4);
    var e6 := NegDistribute(e5);
    NegDistributeRefines(m, env, e5);
    var e7 := CanonicalizeDiv(e6);
    CanonicalizeDivRefines(m, env, e6);
    var e8 := CollectLikeTerms(m, e7);
    CollectLikeTermsRefines(m, env, e7);
    SimplifyRefines(m, env, e8);
  }

  lemma NextRoundRefines(m: Lib, env: Env, e: Expr, k: nat)
    requires Lawful(m) && KeyedAfter(m, AgreeAt(m, env), e, k)
    requires Refines(m, env, e, Iterate(RoundOf(m), e, k))
    ensures Refines(m, env, e, Iterate(RoundOf(m), e, k + 1))
  {
    var p := Iterate(RoundOf(m), e, k);
    RoundRefines(m, env, p);
    RoundOfIsRound(m, p);
    OneMoreStep(RoundOf(m), e, k);
  }

  lemma {:induction false} RoundsRefine(m: Lib, env: Env, e: Expr, n: nat)
    requires Lawful(m) && forall k: nat :: KeyedAfter(m, AgreeAt(m, env), e, k)
    ensures Refines(m, env, e, Iterate(RoundOf(m), e, n))
    decreases n
  {
    if n == 0 {
      assert Iterate(RoundOf(m), e, 0) == e;
    } else {
      hide KeyedAfter, Refines, RoundOf, Iterate, AgreeAt, Lawful;
      RoundsRefine(m, env, e, n - 1);
      NextRoundRefines(m, env, e, n - 1);
    }
  }

  /**
    The canonical form has the value of the expression wherever that has one, if the
    terms with equal printed forms that its run merges have equal values there.
    */
  lemma CanonicalFormRefines(m: Lib, env: Env, e: Expr, r: Expr)
    requires Lawful(m) && RunKeyed(m, AgreeAt(m, env), e) && CanonicalizesTo(m, e, r)
    ensures Refines(m, env, e, r)
  {
    var n: nat :| Iterate(RoundOf(m), e, n) == r;
    RoundsRefine(m, env, e, n);
  }

  lemma ZeroDifference(m: Lib, env: Env, a: Expr, b: Expr)
    requires Refines(m, env, Sub(a, b), Num(0.0))
    requires Strict(m, env, a).Some? && Strict(m, env, b).Some?
    ensures Strict(m, env, a) == Strict(m, env, b)
  {
    assert Strict(m, env, Num(0.0)) == Some(0.0);
    assert Strict(m, env, Sub(a, b)) == SubValues(Strict(m, env, a), Strict(m, env, b));
  }

  /**
    Two expressions the program calls equivalent agree wherever both are strictly
    defined, if the terms with equal printed forms that its run merges agree there.
    */
  lemma EquivalentSound(m: Lib, env: Env, a: Expr, b: Expr)
    requires Lawful(m) && EquivalentKeyed(m, AgreeAt(m, env), a, b) && Equivalent(m, a, b)
    requires Strict(m, env, a).Some? && Strict(m, env, b).Some?
    ensures Strict(m, env, a) == Strict(m, env, b)
  {
    if a != b {
      var ca, cb :| EquivalentVia(m, a, b, ca, cb);
      CanonicalFormRefines(m, env, a, ca);
      CanonicalFormRefines(m, env, b, cb);
      if ca != cb {
        CanonicalFormRefines(m, env, Sub(ca, cb), Num(0.0));
        ZeroDifference(m, env, ca, cb);
      }
    }
  }

  /** A relation that implies agreement at every assignment makes the answer right at all of them. */
  lemma EquivalentSoundEverywhere(m: Lib, rel: Relation, a: Expr, b: Expr)
    requires Lawful(m) && EquivalentKeyed(m, rel, a, b) && Equivalent(m, a, b)
    requires forall env: Env :: Stronger(rel, AgreeAt(m, env))
    ensures forall env: Env | Strict(m, env, a).Some? && Strict(m, env, b).Some? ::
              Strict(m, env, a) == Strict(m, env, b)
  {
    forall env: Env | Strict(m, env, a).Some? && Strict(m, env, b).Some?
      ensures Strict(m, env, a) == Strict(m, env, b)
    {
      RunKeyedMonotone(m, rel, AgreeAt(m, env), a);
      RunKeyedMonotone(m, rel, AgreeAt(m, env), b);
      forall ca: Expr, cb: Expr | EquivalentVia(m, a, b, ca, cb) && ca != cb
        ensures RunKeyed(m, AgreeAt(m, env), Sub(ca, cb))
      {
        RunKeyedMonotone(m, rel, AgreeAt(m, env), Sub(ca, cb));
      }
      EquivalentSound(m, env, a, b);
    }
  }

  /** The same for the program's own evaluation, with exponents fixed in the text. */
  lemma EquivalentSoundFixedExponents(m: Lib, env: Env, a: Expr, b: Expr)
    requires Lawful(m) && EquivalentKeyed(m, AgreeAt(m, env), a, b) && Equivalent(m, a, b)
    requires FixedExponents(a) && FixedExponents(b)
    requires Evaluate(m, env, a).Some? && Evaluate(m, env, b).Some?
    ensures Evaluate(m, env, a) == Evaluate(m, env, b)
  {
    FixedExponentsAgree(m, env, a);
    FixedExponentsAgree(m, env, b);
    EquivalentSound(m, env, a, b);
  }
}
