/** The life cycle of abstract concepts: registration, reinforcement, decay and dissolution. */
module Abstraction {
  import opened Wrappers
  import opened Ordering
  import opened Communities

  const MIN_COHERENCE := 0.2
  const LEARNING_CYCLES := 50

  // ----- concepts -----

  /** One row of the tracker's three parallel vectors. */
  datatype Concept = Concept(score: real, components: seq<nat>, reinforced: nat)

  function Zip(scores: seq<real>, sets: seq<seq<nat>>, lasts: seq<nat>): (r: seq<Concept>)
    requires |scores| == |sets| == |lasts|
    ensures |r| == |scores| && forall i | 0 <= i < |r| :: r[i] == Concept(scores[i], sets[i], lasts[i])
  {
    seq(|scores|, i requires 0 <= i < |scores| => Concept(scores[i], sets[i], lasts[i]))
  }

  /** The same components, in whatever order. */
  predicate SameComponents(s: seq<nat>, t: seq<nat>) {
    multiset(s) == multiset(t)
  }

  /** The first concept with the given components. */
  function Find(cs: seq<Concept>, components: seq<nat>): (r: Option<nat>)
    ensures r.Some? ==> r.value < |cs| && SameComponents(cs[r.value].components, components)
    ensures r.None? ==> forall i | 0 <= i < |cs| :: !SameComponents(cs[i].components, components)
  {
    if cs == [] then None
    else if SameComponents(cs[0].components, components) then Some(0)
    else
      var rest := Find(cs[1..], components);
      if rest.Some? then Some(rest.value + 1) else None
  }

  function Restored(c: Concept, tick: nat): Concept {
    c.(score := 1.0, reinforced := tick)
  }

  /** The score after blending in 10% of the current mean mutual probability of the components. */
  function Blended(m: TransitionModel, c: Concept): Concept
    requires m.Valid()
  {
    if |c.components| < 2 || PairCount(c.components, |c.components|) == 0 then c
    else c.(score := c.score * 0.9 + MeanMutual(m, c.components) * 0.1)
  }

  /** Blending moves the score a tenth of the way to the mean, and touches nothing else. */
  lemma BlendMovesTenth(m: TransitionModel, c: Concept)
    requires m.Valid()
    ensures var b := Blended(m, c);
            && b.components == c.components && b.reinforced == c.reinforced
            && (|c.components| >= 2 && PairCount(c.components, |c.components|) > 0 ==>
                  && 10.0 * (b.score - c.score) == MeanMutual(m, c.components) - c.score
                  && (b.score == c.score <==> c.score == MeanMutual(m, c.components)))
            && (|c.components| < 2 || PairCount(c.components, |c.components|) == 0 ==> b == c)
  {
  }

  function BlendedAll(m: TransitionModel, cs: seq<Concept>): (r: seq<Concept>)
    requires m.Valid()
    ensures |r| == |cs| && forall i | 0 <= i < |cs| :: r[i] == Blended(m, cs[i])
  {
    seq(|cs|, i requires 0 <= i < |cs| => Blended(m, cs[i]))
  }

  function Decayed(factor: real, c: Concept): Concept {
    c.(score := c.score * factor)
  }

  function DecayedAll(factor: real, cs: seq<Concept>): (r: seq<Concept>)
    ensures |r| == |cs| && forall i | 0 <= i < |cs| :: r[i] == Decayed(factor, cs[i])
  {
    seq(|cs|, i requires 0 <= i < |cs| => Decayed(factor, cs[i]))
  }

  predicate IsObsolete(c: Concept) {
    c.score < MIN_COHERENCE
  }

  /** The indices below n of the obsolete concepts, in ascending order. */
  function ObsoleteIndices(cs: seq<Concept>, n: nat): seq<nat>
    requires n <= |cs|
  {
    if n == 0 then []
    else ObsoleteIndices(cs, n - 1) + if IsObsolete(cs[n - 1]) then [n - 1] else []
  }

  /** The concepts that are not obsolete, in their order. */
  function Survivors(cs: seq<Concept>): seq<Concept> {
    if cs == [] then []
    else (if IsObsolete(cs[0]) then [] else [cs[0]]) + Survivors(cs[1..])
  }

  // ----- the tracker -----

  class CoherenceTracker {
    var scores: seq<real>
    var componentSets: seq<seq<nat>>
    var lastReinforced: seq<nat>
    var tick: nat
    /** The factor by which a score decays in one tick: 0.5 to the power 1/500 in the program. */
    const decayPerTick: real

    ghost predicate Valid()
      reads this
    {
      |scores| == |componentSets| == |lastReinforced|
    }

    ghost function Concepts(): seq<Concept>
      reads this
      requires Valid()
    {
      Zip(scores, componentSets, lastReinforced)
    }

    constructor (decayPerTick: real)
      ensures Valid() && Concepts() == [] && tick == 0 && this.decayPerTick == decayPerTick
    {
      scores, componentSets, lastReinforced, tick := [], [], [], 0;
      this.decayPerTick := decayPerTick;
    }

    method Register(components: seq<nat>) returns (idx: nat)
      requires Valid()
      modifies this
      ensures Valid() && tick == old(tick)
      ensures Concepts() == old(Concepts()) + [Concept(1.0, components, tick)] && idx == |old(Concepts())|
    {
      idx := |scores|;
      scores := scores + [1.0];
      componentSets := componentSets + [components];
      lastReinforced := lastReinforced + [tick];
    }

    method Tick()
      requires Valid()
      modifies this
      ensures Valid() && tick == old(tick) + 1
      ensures Concepts() == DecayedAll(decayPerTick, old(Concepts()))
    {
      tick := tick + 1;
      for i := 0 to |scores|
        invariant Valid() && tick == old(tick) + 1 && |scores| == |old(scores)|
        invariant componentSets == old(componentSets) && lastReinforced == old(lastReinforced)
        invariant forall j | 0 <= j < |scores| ::
                    scores[j] == if j < i then old(scores)[j] * decayPerTick else old(scores)[j]
      {
        scores := scores[i := scores[i] * decayPerTick];
      }
      ghost var decayed := DecayedAll(decayPerTick, old(Concepts()));
      assert forall j | 0 <= j < |decayed| :: Concepts()[j] == decayed[j];
    }

    method Reinforce(idx: nat)
      requires Valid()
      modifies this
      ensures Valid() && tick == old(tick)
      ensures Concepts() == if idx < |old(Concepts())| then old(Concepts())[idx := Restored(old(Concepts())[idx], tick)]
                            else old(Concepts())
    {
      if idx < |scores| {
        scores := scores[idx := 1.0];
        lastReinforced := lastReinforced[idx := tick];
      }
    }

    method UpdateCoherenceFromModel(m: TransitionModel)
      requires Valid() && m.Valid()
      modifies this
      ensures Valid() && tick == old(tick)
      ensures Concepts() == BlendedAll(m, old(Concepts()))
    {
      for i := 0 to |componentSets|
        invariant Valid() && tick == old(tick) && |scores| == |old(scores)|
        invariant componentSets == old(componentSets) && lastReinforced == old(lastReinforced)
        invariant forall j | 0 <= j < |scores| ::
                    scores[j] == if j < i then Blended(m, old(Concepts())[j]).score else old(scores)[j]
      {
        var components := componentSets[i];
        if |components| >= 2 {
          var mean, pairs := Cohesion(m, components);
          if pairs > 0 {
            scores := scores[i := scores[i] * 0.9 + mean * 0.1];
          }
        }
      }
    }

    method ConceptsToDissolve() returns (indices: seq<nat>)
      requires Valid()
      ensures indices == ObsoleteIndices(Concepts(), |Concepts()|)
    {
      indices := [];
      for i := 0 to |scores|
        invariant indices == ObsoleteIndices(Concepts(), i)
      {
        if scores[i] < MIN_COHERENCE {
          indices := indices + [i];
        }
      }
    }

    method Remove(idx: nat)
      requires Valid()
      modifies this
      ensures Valid() && tick == old(tick)
      ensures Concepts() == if idx < |old(Concepts())| then old(Concepts())[..idx] + old(Concepts())[idx + 1..]
                            else old(Concepts())
    {
      if idx < |scores| {
        scores := scores[..idx] + scores[idx + 1..];
        componentSets := componentSets[..idx] + componentSets[idx + 1..];
        lastReinforced := lastReinforced[..idx] + lastReinforced[idx + 1..];
      }
    }

    /** The first concept whose sorted components equal the sorted argument. */
    method FindExisting(components: seq<nat>) returns (found: Option<nat>)
      requires Valid()
      ensures found == Find(Concepts(), components)
    {
      var i := 0;
      while i < |componentSets|
        invariant 0 <= i <= |componentSets|
        invariant Find(Concepts(), components) == Shifted(Find(Concepts()[i..], components), i)
      {
        SortedEqualExactly(componentSets[i], components);
        if SortInts(componentSets[i]) == SortInts(components) {
          return Some(i);
        }
        assert Concepts()[i..][1..] == Concepts()[i + 1..];
        i := i + 1;
      }
      return None;
    }
  }

  function Shifted(r: Option<nat>, n: nat): Option<nat> {
    if r.Some? then Some(r.value + n) else None
  }

  // ----- dissolution -----

  lemma {:induction false} SurvivorsSplit(a: seq<Concept>, b: seq<Concept>)
    ensures Survivors(a + b) == Survivors(a) + Survivors(b)
  {
    hide IsObsolete;
    if a == [] {
      assert a + b == b;
    } else {
      SurvivorsSplit(a[1..], b);
      assert (a + b)[1..] == a[1..] + b;
    }
  }

  lemma {:induction false} AllSurvive(cs: seq<Concept>)
    requires forall i | 0 <= i < |cs| :: !IsObsolete(cs[i])
    ensures Survivors(cs) == cs
  {
    if cs != [] { AllSurvive(cs[1..]); }
  }

  /** Dissolution keeps exactly the concepts at or above the threshold. */
  lemma {:induction false} SurvivorsExact(cs: seq<Concept>)
    ensures forall c :: c in Survivors(cs) <==> c in cs && c.score >= 0.2
    ensures |Survivors(cs)| == |cs| - |ObsoleteIndices(cs, |cs|)|
  {
    if cs != [] {
      SurvivorsExact(cs[1..]);
      ObsoleteShift(cs, |cs|);
      assert cs == [cs[0]] + cs[1..];
    }
  }

  lemma {:induction false} ObsoleteShift(cs: seq<Concept>, n: nat)
    requires 1 <= n <= |cs|
    ensures |ObsoleteIndices(cs, n)| == |ObsoleteIndices(cs[1..], n - 1)| + if IsObsolete(cs[0]) then 1 else 0
  {
    if n > 1 { ObsoleteShift(cs, n - 1); }
  }

  lemma {:induction false} ObsoleteIndicesExact(cs: seq<Concept>, n: nat)
    requires n <= |cs|
    ensures var r := ObsoleteIndices(cs, n);
            && (forall t | 0 <= t < |r| :: r[t] < n && IsObsolete(cs[r[t]]))
            && (forall t, u | 0 <= t < u < |r| :: r[t] < r[u])
            && (forall i | 0 <= i < n && IsObsolete(cs[i]) :: i in r)
  {
    if n > 0 { ObsoleteIndicesExact(cs, n - 1); }
  }

  /** The concepts when those from `cut` on have been dissolved. */
  function Partly(cs: seq<Concept>, cut: nat): seq<Concept>
    requires cut <= |cs|
  {
    cs[..cut] + Survivors(cs[cut..])
  }

  lemma NotBetween(r: seq<nat>, t: nat, j: nat)
    requires t < |r| && r[t] < j && (t + 1 < |r| ==> j < r[t + 1])
    requires forall u, v | 0 <= u < v < |r| :: r[u] < r[v]
    ensures j !in r
  {
  }

  /** Nothing is obsolete between two neighbouring obsolete indices. */
  lemma NoneBetween(cs: seq<Concept>, t: nat, cut: nat)
    requires t < |ObsoleteIndices(cs, |cs|)|
    requires var r := ObsoleteIndices(cs, |cs|);
             cut == if t + 1 < |r| then r[t + 1] else |cs|
    ensures var i := ObsoleteIndices(cs, |cs|)[t];
            && i < cut <= |cs| && IsObsolete(cs[i])
            && forall j | i < j < cut :: !IsObsolete(cs[j])
  {
    var r := ObsoleteIndices(cs, |cs|);
    ObsoleteIndicesExact(cs, |cs|);
    forall j | r[t] < j < cut ensures !IsObsolete(cs[j]) {
      NotBetween(r, t, j);
    }
  }

  lemma SurvivorsOfKept(a: seq<Concept>, b: seq<Concept>)
    requires forall i | 0 <= i < |a| :: !IsObsolete(a[i])
    ensures Survivors(a + b) == a + Survivors(b)
  {
    AllSurvive(a);
    SurvivorsSplit(a, b);
  }

  /** Removing the last obsolete concept before `cut` once those from `cut` on are gone. */
  lemma RemovalStep(cs: seq<Concept>, i: nat, cut: nat)
    requires i < cut <= |cs| && IsObsolete(cs[i]) && forall j | i < j < cut :: !IsObsolete(cs[j])
    ensures Partly(cs, cut)[..i] + Partly(cs, cut)[i + 1..] == Partly(cs, i)
  {
    var middle, rest := cs[i + 1..cut], cs[cut..];
    assert cs[i..][1..] == middle + rest;
    SurvivorsOfKept(middle, rest);
    assert Survivors(cs[i..]) == middle + Survivors(rest);
  }

  /** Dissolution in reverse order leaves exactly the survivors, in their order. */
  method DissolveObsolete(tracker: CoherenceTracker) returns (dissolved: nat)
    requires tracker.Valid()
    modifies tracker
    ensures tracker.Valid() && tracker.tick == old(tracker.tick)
    ensures tracker.Concepts() == Survivors(old(tracker.Concepts()))
    ensures dissolved == |old(tracker.Concepts())| - |tracker.Concepts()|
  {
    var indices := tracker.ConceptsToDissolve();
    ghost var cs := tracker.Concepts();
    ghost var cut := |cs|;
    dissolved := 0;
    var t := |indices|;
    assert Partly(cs, cut) == cs;
    hide Survivors, Partly, ObsoleteIndices;
    while t > 0
      invariant 0 <= t <= |indices| && dissolved == |indices| - t
      invariant tracker.Valid() && tracker.tick == old(tracker.tick)
      invariant cut == if t < |indices| then indices[t] else |cs|
      invariant cut <= |cs| && tracker.Concepts() == Partly(cs, cut)
    {
      t := t - 1;
      NoneBetween(cs, t, cut);
      RemovalStep(cs, indices[t], cut);
      tracker.Remove(indices[t]);
      dissolved := dissolved + 1;
      cut := indices[t];
    }
    ObsoleteIndicesExact(cs, |cs|);
    FirstAllSurvive(cs, cut);
    SurvivorsExact(cs);
  }

  lemma FirstAllSurvive(cs: seq<Concept>, cut: nat)
    requires cut <= |cs| && forall i | 0 <= i < cut :: !IsObsolete(cs[i])
    ensures Partly(cs, cut) == Survivors(cs)
  {
    SurvivorsOfKept(cs[..cut], cs[cut..]);
    assert cs[..cut] + cs[cut..] == cs;
  }

  // ----- forming concepts -----

  datatype Formation = Formation(concepts: seq<Concept>, created: nat, reinforced: nat, gatedByCapacity: bool)

  /** One detected community; `accepted` is the answer of the hierarchy. */
  function FormOne(st: Formation, components: seq<nat>, accepted: bool, max: nat, tick: nat): Formation {
    if |st.concepts| >= max then st.(gatedByCapacity := true)
    else
      var found := Find(st.concepts, components);
      if found.Some? then
        st.(concepts := st.concepts[found.value := Restored(st.concepts[found.value], tick)],
            reinforced := st.reinforced + 1)
      else if accepted then
        st.(concepts := st.concepts + [Concept(1.0, components, tick)], created := st.created + 1)
      else st.(gatedByCapacity := true)
  }

  function FormAll(st: Formation, cs: seq<Community>, accepted: seq<bool>, n: nat, max: nat, tick: nat): Formation
    requires n <= |cs| <= |accepted|
  {
    if n == 0 then st
    else FormOne(FormAll(st, cs, accepted, n - 1, max, tick), cs[n - 1].members, accepted[n - 1], max, tick)
  }

  lemma FullRefuses(st: Formation, components: seq<nat>, accepted: bool, max: nat, tick: nat)
    requires |st.concepts| >= max
    ensures FormOne(st, components, accepted, max, tick) == st.(gatedByCapacity := true)
  {
  }

  /** Once the capacity is reached, stopping early changes nothing. */
  lemma {:induction false} FullStays(st: Formation, cs: seq<Community>, accepted: seq<bool>,
                                     i: nat, n: nat, max: nat, tick: nat)
    requires i < n <= |cs| <= |accepted|
    requires |FormAll(st, cs, accepted, i, max, tick).concepts| >= max
    ensures FormAll(st, cs, accepted, n, max, tick)
         == FormAll(st, cs, accepted, i, max, tick).(gatedByCapacity := true)
  {
    if i < n - 1 { FullStays(st, cs, accepted, i, n - 1, max, tick); }
  }

  ghost predicate DistinctSets(cs: seq<Concept>) {
    forall i, j | 0 <= i < j < |cs| :: !SameComponents(cs[i].components, cs[j].components)
  }

  lemma FormOneKeeps(st: Formation, components: seq<nat>, accepted: bool, max: nat, tick: nat)
    requires |st.concepts| <= max && DistinctSets(st.concepts)
    ensures var r := FormOne(st, components, accepted, max, tick);
            && |r.concepts| <= max && DistinctSets(r.concepts)
            && |r.concepts| - |st.concepts| == r.created - st.created
            && r.created >= st.created
  {
  }

  /** Forming keeps the sets different, stays within the capacity and counts what it adds. */
  lemma {:induction false} FormAllKeeps(st: Formation, cs: seq<Community>, accepted: seq<bool>,
                                        n: nat, max: nat, tick: nat)
    requires n <= |cs| <= |accepted| && |st.concepts| <= max && DistinctSets(st.concepts)
    ensures var r := FormAll(st, cs, accepted, n, max, tick);
            && |r.concepts| <= max && DistinctSets(r.concepts)
            && |r.concepts| - |st.concepts| == r.created - st.created
            && r.created >= st.created
  {
    if n > 0 {
      FormAllKeeps(st, cs, accepted, n - 1, max, tick);
      FormOneKeeps(FormAll(st, cs, accepted, n - 1, max, tick), cs[n - 1].members, accepted[n - 1], max, tick);
    }
  }

  /** Something the cycle has seen keeps or makes a concept of these components, fully coherent as of this tick. */
  ghost predicate IsFresh(cs: seq<Concept>, components: seq<nat>, tick: nat) {
    exists c :: c in cs && IsFreshFor(c, components, tick)
  }

  predicate IsFreshFor(c: Concept, components: seq<nat>, tick: nat) {
    SameComponents(c.components, components) && c.score == 1.0 && c.reinforced == tick
  }

  predicate IsKnown(cs: seq<Concept>, components: seq<nat>) {
    Find(cs, components).Some?
  }

  lemma FormOneFreshens(st: Formation, components: seq<nat>, accepted: bool, max: nat, tick: nat)
    ensures var r := FormOne(st, components, accepted, max, tick);
            && (|st.concepts| < max && (accepted || IsKnown(st.concepts, components)) ==>
                  IsFresh(r.concepts, components, tick))
            && (forall other :: IsFresh(st.concepts, other, tick) ==> IsFresh(r.concepts, other, tick))
            && (forall other :: IsKnown(st.concepts, other) ==> IsKnown(r.concepts, other))
  {
    var r := FormOne(st, components, accepted, max, tick);
    var found := Find(st.concepts, components);
    if |st.concepts| < max && found.Some? {
      var c := r.concepts[found.value];
      assert c in r.concepts && IsFreshFor(c, components, tick);
    } else if |st.concepts| < max && accepted {
      var c := Concept(1.0, components, tick);
      assert r.concepts[|st.concepts|] == c && IsFreshFor(c, components, tick);
    }
    forall other | IsFresh(st.concepts, other, tick) ensures IsFresh(r.concepts, other, tick) {
      var c :| c in st.concepts && IsFreshFor(c, other, tick);
      var i :| 0 <= i < |st.concepts| && st.concepts[i] == c;
      assert r.concepts[i] in r.concepts && IsFreshFor(r.concepts[i], other, tick);
    }
    forall other | IsKnown(st.concepts, other) ensures IsKnown(r.concepts, other) {
      var i := Find(st.concepts, other).value;
      assert SameComponents(r.concepts[i].components, other);
    }
  }

  lemma FormOneGrows(st: Formation, components: seq<nat>, accepted: bool, max: nat, tick: nat)
    ensures |FormOne(st, components, accepted, max, tick).concepts| >= |st.concepts|
  {
    hide Find;
  }

  /**
    What forming does when the capacity is not reached: every detected community that is
    known or accepted is tracked afterwards, fully coherent as of this tick.
    */
  lemma {:induction false} DetectedIsTracked(st: Formation, cs: seq<Community>, accepted: seq<bool>,
                                             i: nat, n: nat, max: nat, tick: nat)
    requires i < n <= |cs| <= |accepted| && |FormAll(st, cs, accepted, n, max, tick).concepts| < max
    requires accepted[i] || IsKnown(st.concepts, cs[i].members)
    ensures IsFresh(FormAll(st, cs, accepted, n, max, tick).concepts, cs[i].members, tick)
  {
    hide FormOne, IsFresh, IsKnown, Find, SameComponents;
    var before := FormAll(st, cs, accepted, n - 1, max, tick);
    FormOneFreshens(before, cs[n - 1].members, accepted[n - 1], max, tick);
    FormOneGrows(before, cs[n - 1].members, accepted[n - 1], max, tick);
    if i < n - 1 {
      DetectedIsTracked(st, cs, accepted, i, n - 1, max, tick);
    } else {
      KnownStays(st, cs, accepted, n - 1, max, tick, cs[i].members);
    }
  }

  lemma {:induction false} KnownStays(st: Formation, cs: seq<Community>, accepted: seq<bool>, n: nat, max: nat,
                                      tick: nat, components: seq<nat>)
    requires n <= |cs| <= |accepted|
    ensures IsKnown(st.concepts, components) ==>
              IsKnown(FormAll(st, cs, accepted, n, max, tick).concepts, components)
  {
    if n > 0 {
      KnownStays(st, cs, accepted, n - 1, max, tick, components);
      FormOneFreshens(FormAll(st, cs, accepted, n - 1, max, tick), cs[n - 1].members, accepted[n - 1], max, tick);
    }
  }

  ghost predicate IsDetected(cs: seq<Community>, n: nat, components: seq<nat>)
    requires n <= |cs|
  {
    exists i | 0 <= i < n :: SameComponents(cs[i].members, components)
  }

  /**
    And nothing else: a concept that is tracked afterwards was detected and is fully
    coherent, or it was tracked before as it is; concepts that were not detected stay.
    */
  lemma {:induction false} OnlyDetectedChange(st: Formation, cs: seq<Community>, accepted: seq<bool>,
                                              n: nat, max: nat, tick: nat)
    requires n <= |cs| <= |accepted|
    ensures var r := FormAll(st, cs, accepted, n, max, tick);
            && (forall c | c in r.concepts ::
                  c in st.concepts || (c.score == 1.0 && c.reinforced == tick && IsDetected(cs, n, c.components)))
            && (forall c | c in st.concepts && !IsDetected(cs, n, c.components) :: c in r.concepts)
  {
    if n > 0 {
      OnlyDetectedChange(st, cs, accepted, n - 1, max, tick);
      var before := FormAll(st, cs, accepted, n - 1, max, tick);
      var members := cs[n - 1].members;
      assert SameComponents(cs[n - 1].members, members);
      FormOneChanges(before, members, accepted[n - 1], max, tick);
      forall components | IsDetected(cs, n - 1, components) ensures IsDetected(cs, n, components) {
        var i :| 0 <= i < n - 1 && SameComponents(cs[i].members, components);
      }
      forall components | SameComponents(members, components) ensures IsDetected(cs, n, components) {
      }
    }
  }

  lemma FormOneChanges(st: Formation, components: seq<nat>, accepted: bool, max: nat, tick: nat)
    ensures var r := FormOne(st, components, accepted, max, tick);
            && (forall c | c in r.concepts ::
                  || c in st.concepts
                  || (c.score == 1.0 && c.reinforced == tick && SameComponents(components, c.components)))
            && (forall c | c in st.concepts && !SameComponents(components, c.components) :: c in r.concepts)
  {
    var r := FormOne(st, components, accepted, max, tick);
    forall c | c in st.concepts && !SameComponents(components, c.components) ensures c in r.concepts {
      var i :| 0 <= i < |st.concepts| && st.concepts[i] == c;
      assert r.concepts[i] == c;
    }
  }

  // ----- the cycle -----

  datatype Config = Config(maxCommunities: nat, errorThreshold: real, decayPerTick: real)

  /** What one cycle sees: the detected communities, the hierarchy's answers, the predictor and the model. */
  datatype Input = Input(communities: seq<Community>, accepted: seq<bool>,
                         avgError: real, totalCycles: nat, model: TransitionModel) {
    predicate Valid() {
      model.Valid() && |communities| == |accepted|
    }

    predicate ErrorOk(config: Config) {
      avgError < config.errorThreshold || totalCycles < LEARNING_CYCLES
    }
  }

  datatype Report = Report(detected: nat, created: nat, reinforced: nat, dissolved: nat,
                           gatedByError: bool, gatedByCapacity: bool)

  datatype Snapshot = Snapshot(concepts: seq<Concept>, clock: nat, tick: nat, created: nat, dissolved: nat,
                               gated: bool, lastAbstraction: nat, lastDetected: seq<Community>)

  function Formed(concepts: seq<Concept>, clock: nat, input: Input, config: Config): Formation
    requires input.Valid()
  {
    var st := Formation(concepts, 0, 0, false);
    if input.ErrorOk(config) then
      FormAll(st, input.communities, input.accepted, |input.communities|, config.maxCommunities, clock)
    else st
  }

  /** The state after one cycle. */
  function AfterCycle(s: Snapshot, input: Input, config: Config): Snapshot
    requires input.Valid()
  {
    var formed := Formed(s.concepts, s.clock, input, config);
    var blended := BlendedAll(input.model, formed.concepts);
    var kept := Survivors(blended);
    SurvivorsExact(blended);
    Snapshot(
      DecayedAll(config.decayPerTick, kept),
      s.clock + 1,
      s.tick + 1,
      s.created + formed.created,
      s.dissolved + (|blended| - |kept|),
      !input.ErrorOk(config),
      if formed.created > 0 then s.tick + 1 else s.lastAbstraction,
      input.communities)
  }

  function ReportOf(s: Snapshot, input: Input, config: Config): Report
    requires input.Valid()
  {
    var formed := Formed(s.concepts, s.clock, input, config);
    SurvivorsExact(BlendedAll(input.model, formed.concepts));
    Report(|input.communities|, formed.created, formed.reinforced,
           |formed.concepts| - |AfterCycle(s, input, config).concepts|,
           !input.ErrorOk(config), formed.gatedByCapacity)
  }

  /** Every detected community counts as created or reinforced, unless the capacity or the hierarchy refused one. */
  lemma {:induction false} FormAllCounts(st: Formation, cs: seq<Community>, accepted: seq<bool>,
                                         n: nat, max: nat, tick: nat)
    requires n <= |cs| <= |accepted| && !st.gatedByCapacity
    ensures var r := FormAll(st, cs, accepted, n, max, tick);
            && r.created + r.reinforced <= st.created + st.reinforced + n
            && (r.created + r.reinforced == st.created + st.reinforced + n <==> !r.gatedByCapacity)
  {
    if n > 0 { FormAllCounts(st, cs, accepted, n - 1, max, tick); }
  }

  /**
    The gate: a cycle looks at what was detected exactly when the prediction error is below
    the threshold or the predictor has not had 50 cycles yet. The report adds up, and the
    tick of the last abstraction moves exactly when something was created.
    */
  lemma GateExactly(s: Snapshot, input: Input, config: Config)
    requires input.Valid()
    ensures var r, report, formed := AfterCycle(s, input, config), ReportOf(s, input, config),
                                     Formed(s.concepts, s.clock, input, config);
            && (r.gated <==> input.avgError >= config.errorThreshold && input.totalCycles >= 50)
            && (r.gated ==> formed.concepts == s.concepts && report.created == report.reinforced == 0)
            && (!r.gated && |formed.concepts| < config.maxCommunities ==>
                  forall i | 0 <= i < |input.communities|
                             && (input.accepted[i] || IsKnown(s.concepts, input.communities[i].members)) ::
                    IsFresh(formed.concepts, input.communities[i].members, s.clock))
            && (!r.gated ==>
                  (report.created + report.reinforced == report.detected <==> !report.gatedByCapacity))
            && r.created == s.created + report.created && r.dissolved == s.dissolved + report.dissolved
            && (report.created > 0 ==> r.lastAbstraction == r.tick == s.tick + 1)
            && (report.created == 0 ==> r.lastAbstraction == s.lastAbstraction)
  {
    var st, n := Formation(s.concepts, 0, 0, false), |input.communities|;
    FormAllCounts(st, input.communities, input.accepted, n, config.maxCommunities, s.clock);
    var formed := Formed(s.concepts, s.clock, input, config);
    if input.ErrorOk(config) && |formed.concepts| < config.maxCommunities {
      forall i | 0 <= i < n && (input.accepted[i] || IsKnown(s.concepts, input.communities[i].members))
        ensures IsFresh(formed.concepts, input.communities[i].members, s.clock)
      {
        DetectedIsTracked(st, input.communities, input.accepted, i, n, config.maxCommunities, s.clock);
      }
    }
  }

  /** c is what becomes of f in one cycle: blended, found coherent enough, and only then decayed. */
  predicate Becomes(m: TransitionModel, decay: real, f: Concept, c: Concept)
    requires m.Valid()
  {
    Blended(m, f).score >= MIN_COHERENCE && c == Decayed(decay, Blended(m, f))
  }

  /** What is tracked after a cycle is exactly what the concepts formed in it become. */
  lemma CycleExactly(s: Snapshot, input: Input, config: Config, c: Concept)
    requires input.Valid()
    ensures c in AfterCycle(s, input, config).concepts <==>
            exists f :: f in Formed(s.concepts, s.clock, input, config).concepts
                        && Becomes(input.model, config.decayPerTick, f, c)
  {
    MaintainedExactly(Formed(s.concepts, s.clock, input, config).concepts, input.model, config.decayPerTick, c);
  }

  lemma MaintainedExactly(formed: seq<Concept>, m: TransitionModel, decay: real, c: Concept)
    requires m.Valid()
    ensures c in DecayedAll(decay, Survivors(BlendedAll(m, formed))) <==>
            exists f :: f in formed && Becomes(m, decay, f, c)
  {
    var blended := BlendedAll(m, formed);
    var kept := Survivors(blended);
    var after := DecayedAll(decay, kept);
    SurvivorsExact(blended);
    hide Survivors, Blended, Decayed, DecayedAll, BlendedAll, MeanMutual, PairCount, ObsoleteIndices;
    if c in after {
      var i :| 0 <= i < |after| && after[i] == c;
      assert kept[i] in kept;
      var j :| 0 <= j < |blended| && blended[j] == kept[i];
      assert formed[j] in formed && Becomes(m, decay, formed[j], c);
    }
    if exists f :: f in formed && Becomes(m, decay, f, c) {
      var f :| f in formed && Becomes(m, decay, f, c);
      var j :| 0 <= j < |formed| && formed[j] == f;
      assert blended[j] in blended && blended[j] in kept;
      var i :| 0 <= i < |kept| && kept[i] == blended[j];
      assert after[i] == c;
    }
  }

  class Abstractor {
    const config: Config
    const coherence: CoherenceTracker
    var tick: nat
    var totalCreated: nat
    var totalDissolved: nat
    var gated: bool
    var lastAbstractionTick: nat
    var lastDetected: seq<Community>

    ghost predicate Valid()
      reads this, coherence
    {
      coherence.Valid() && coherence.decayPerTick == config.decayPerTick
    }

    ghost function Now(): Snapshot
      reads this, coherence
      requires Valid()
    {
      Snapshot(coherence.Concepts(), coherence.tick, tick, totalCreated, totalDissolved,
               gated, lastAbstractionTick, lastDetected)
    }

    constructor (config: Config)
      ensures Valid() && fresh(coherence) && this.config == config && Now() == Initial()
    {
      this.config := config;
      coherence := new CoherenceTracker(config.decayPerTick);
      tick, totalCreated, totalDissolved := 0, 0, 0;
      gated, lastAbstractionTick, lastDetected := false, 0, [];
    }

    /** One abstraction cycle. */
    method Cycle(input: Input) returns (report: Report)
      requires Valid() && input.Valid()
      modifies this, coherence
      ensures Valid()
      ensures Now() == AfterCycle(old(Now()), input, config)
      ensures report == ReportOf(old(Now()), input, config)
    {
      tick := tick + 1;
      lastDetected := input.communities;
      var errorOk := input.avgError < config.errorThreshold || input.totalCycles < LEARNING_CYCLES;
      gated := !errorOk;
      report := FormIfOpen(input, errorOk);
      var dissolved := Maintain(input.model);
      report := report.(dissolved := dissolved);
    }

    /** Concepts are formed only when the prediction error lets them. */
    method FormIfOpen(input: Input, errorOk: bool) returns (report: Report)
      requires Valid() && input.Valid() && errorOk == input.ErrorOk(config)
      modifies this`totalCreated, this`lastAbstractionTick, coherence
      ensures Valid() && coherence.tick == old(coherence.tick)
      ensures Reflects(Formed(old(coherence.Concepts()), coherence.tick, input, config), report,
                       Report(|input.communities|, 0, 0, 0, !errorOk, false),
                        old(totalCreated), old(lastAbstractionTick))
    {
      report := Report(|input.communities|, 0, 0, 0, false, false);
      if errorOk && input.communities != [] {
        report := FormConcepts(input, report);
      } else if !errorOk {
        report := report.(gatedByError := true);
      }
    }

    /** Blending, dissolution and decay. */
    method Maintain(model: TransitionModel) returns (dissolved: nat)
      requires Valid() && model.Valid()
      modifies this, coherence
      ensures Valid()
      ensures var blended := BlendedAll(model, old(coherence.Concepts()));
              && coherence.Concepts() == DecayedAll(config.decayPerTick, Survivors(blended))
              && dissolved == |blended| - |Survivors(blended)|
      ensures coherence.tick == old(coherence.tick) + 1 && totalDissolved == old(totalDissolved) + dissolved
      ensures unchanged(`tick, `totalCreated, `gated, `lastAbstractionTick, `lastDetected)
    {
      coherence.UpdateCoherenceFromModel(model);
      dissolved := DissolveObsolete(coherence);
      totalDissolved := totalDissolved + dissolved;
      coherence.Tick();
    }

    /** The concepts, the counters and the report are those of a formation. */
    ghost predicate Reflects(formed: Formation, report: Report, before: Report, created: nat, last: nat)
      reads this, coherence
      requires Valid()
    {
      && coherence.Concepts() == formed.concepts
      && report == before.(created := formed.created, reinforced := formed.reinforced,
                           gatedByCapacity := formed.gatedByCapacity)
      && totalCreated == created + formed.created
      && lastAbstractionTick == if formed.created > 0 then tick else last
    }

    /** One detected community: known, new or refused; `full` when there is no room to look at it. */
    method FormConcept(components: seq<nat>, accepted: bool, report: Report,
                       ghost formed: Formation, ghost before: Report, ghost created: nat, ghost last: nat)
      returns (r: Report, full: bool)
      requires Valid() && Reflects(formed, report, before, created, last)
      modifies this`totalCreated, this`lastAbstractionTick, coherence
      ensures Valid() && coherence.tick == old(coherence.tick)
      ensures full == (|formed.concepts| >= config.maxCommunities)
      ensures Reflects(FormOne(formed, components, accepted, config.maxCommunities, coherence.tick),
                       r, before, created, last)
    {
      full := |coherence.scores| >= config.maxCommunities;
      if full {
        r := report.(gatedByCapacity := true);
        return;
      }
      var found := coherence.FindExisting(components);
      if found.Some? {
        coherence.Reinforce(found.value);
        r := report.(reinforced := report.reinforced + 1);
      } else if accepted {
        var _ := coherence.Register(components);
        totalCreated := totalCreated + 1;
        lastAbstractionTick := tick;
        r := report.(created := report.created + 1);
      } else {
        r := report.(gatedByCapacity := true);
      }
    }

    method FormConcepts(input: Input, before: Report) returns (report: Report)
      requires Valid() && input.Valid() && before.created == before.reinforced == 0 && !before.gatedByCapacity
      modifies this`totalCreated, this`lastAbstractionTick, coherence
      ensures Valid() && coherence.tick == old(coherence.tick)
      ensures Reflects(FormAll(Formation(old(coherence.Concepts()), 0, 0, false), input.communities, input.accepted,
                               |input.communities|, config.maxCommunities, coherence.tick),
                       report, before, old(totalCreated), old(lastAbstractionTick))
    {
      report := before;
      hide FormOne, Find, SameComponents;
      var n := |input.communities|;
      ghost var clock, created, last := coherence.tick, totalCreated, lastAbstractionTick;
      ghost var start := Formation(coherence.Concepts(), 0, 0, false);
      ghost var formed := start;
      for i := 0 to n
        invariant Valid() && coherence.tick == clock
        invariant formed == FormAll(start, input.communities, input.accepted, i, config.maxCommunities, clock)
        invariant Reflects(formed, report, before, created, last)
      {
        var full;
        report, full := FormConcept(input.communities[i].members, input.accepted[i], report,
                                    formed, before, created, last);
        if full {
          FullRefuses(formed, input.communities[i].members, input.accepted[i], config.maxCommunities, clock);
          FullStays(start, input.communities, input.accepted, i, n, config.maxCommunities, clock);
          return;
        }
        formed := FormOne(formed, input.communities[i].members, input.accepted[i], config.maxCommunities, clock);
      }
    }
  }

  function Initial(): Snapshot {
    Snapshot([], 0, 0, 0, 0, false, 0, [])
  }

  // ----- every run -----

  /** Created minus dissolved is what is tracked, within the capacity and without repeated sets. */
  ghost predicate Consistent(s: Snapshot, config: Config) {
    && |s.concepts| == s.created - s.dissolved
    && |s.concepts| <= config.maxCommunities
    && DistinctSets(s.concepts)
  }

  lemma {:induction false} SurvivorsDistinct(cs: seq<Concept>)
    requires DistinctSets(cs)
    ensures DistinctSets(Survivors(cs))
  {
    if cs != [] {
      SurvivorsDistinct(cs[1..]);
      SurvivorsExact(cs[1..]);
      var rest := Survivors(cs[1..]);
      forall j | 0 <= j < |rest| ensures !SameComponents(cs[0].components, rest[j].components) {
        assert rest[j] in rest;
        assert rest[j] in cs[1..];
      }
    }
  }

  lemma CycleKeepsConsistent(s: Snapshot, input: Input, config: Config)
    requires input.Valid() && Consistent(s, config)
    ensures Consistent(AfterCycle(s, input, config), config)
  {
    var st := Formation(s.concepts, 0, 0, false);
    FormAllKeeps(st, input.communities, input.accepted, |input.communities|, config.maxCommunities, s.clock);
    var formed := Formed(s.concepts, s.clock, input, config);
    var blended := BlendedAll(input.model, formed.concepts);
    assert DistinctSets(blended);
    SurvivorsDistinct(blended);
    SurvivorsExact(blended);
  }

  function Run(inputs: seq<Input>, config: Config): Snapshot
    requires forall i | 0 <= i < |inputs| :: inputs[i].Valid()
  {
    if inputs == [] then Initial()
    else AfterCycle(Run(inputs[..|inputs| - 1], config), inputs[|inputs| - 1], config)
  }

  /** Whatever is detected, accepted and predicted, every run from a new abstractor stays consistent. */
  lemma {:induction false} RunConsistent(inputs: seq<Input>, config: Config)
    requires forall i | 0 <= i < |inputs| :: inputs[i].Valid()
    ensures Consistent(Run(inputs, config), config)
  {
    if inputs != [] {
      RunConsistent(inputs[..|inputs| - 1], config);
      CycleKeepsConsistent(Run(inputs[..|inputs| - 1], config), inputs[|inputs| - 1], config);
    }
  }

  // ----- scores -----

  ghost predicate ScoresWithin(cs: seq<Concept>, low: real) {
    forall c | c in cs :: low <= c.score <= 1.0
  }

  lemma BlendedWithin(m: TransitionModel, c: Concept)
    requires Communities.Consistent(m) && 0.0 <= c.score <= 1.0
    ensures 0.0 <= Blended(m, c).score <= 1.0
  {
    BlendMovesTenth(m, c);
    if |c.components| >= 2 && PairCount(c.components, |c.components|) > 0 {
      var s := c.components;
      forall a, b | 0 <= a < |s| && 0 <= b < |s| && s[a] != s[b] ensures 0.0 <= m.Mutual(s[a], s[b]) <= 1.0 {
        ProbabilitiesAddUp(m, s[a], s[b]);
        ProbabilitiesAddUp(m, s[b], s[a]);
      }
      MeanWithin(m, s, 0.0, 1.0);
    }
  }

  lemma ScaledWithin(x: real, low: real, d: real)
    requires 0.0 <= low <= x <= 1.0 && 0.0 <= d <= 1.0
    ensures low * d <= x * d <= 1.0 && 0.0 <= low * d
  {
    assert (x - low) * d >= 0.0 && (1.0 - x) * d >= 0.0;
  }

  /** The threshold of dissolution, decayed once. */
  function LowestScore(config: Config): real {
    MIN_COHERENCE * config.decayPerTick
  }

  /** One cycle with probabilities leaves every score between the threshold, decayed once, and 1. */
  lemma CycleScores(s: Snapshot, input: Input, config: Config)
    requires input.Valid() && Communities.Consistent(input.model)
    requires 0.0 <= config.decayPerTick <= 1.0 && ScoresWithin(s.concepts, 0.0)
    ensures ScoresWithin(AfterCycle(s, input, config).concepts, LowestScore(config))
  {
    var formed := Formed(s.concepts, s.clock, input, config);
    OnlyDetectedChange(Formation(s.concepts, 0, 0, false), input.communities, input.accepted,
                       |input.communities|, config.maxCommunities, s.clock);
    assert ScoresWithin(formed.concepts, 0.0);
    MaintainedScores(input.model, formed.concepts, config);
  }

  lemma MaintainedScores(m: TransitionModel, cs: seq<Concept>, config: Config)
    requires Communities.Consistent(m) && 0.0 <= config.decayPerTick <= 1.0 && ScoresWithin(cs, 0.0)
    ensures ScoresWithin(DecayedAll(config.decayPerTick, Survivors(BlendedAll(m, cs))), LowestScore(config))
  {
    hide Survivors, Blended, LowestScore;
    var blended := BlendedAll(m, cs);
    forall i | 0 <= i < |blended| ensures 0.0 <= blended[i].score <= 1.0 {
      assert cs[i] in cs;
      BlendedWithin(m, cs[i]);
    }
    var kept := Survivors(blended);
    SurvivorsExact(blended);
    assert forall c | c in kept :: MIN_COHERENCE <= c.score <= 1.0;
    DecayedScores(kept, config);
  }

  lemma DecayedScores(kept: seq<Concept>, config: Config)
    requires 0.0 <= config.decayPerTick <= 1.0 && forall c | c in kept :: MIN_COHERENCE <= c.score <= 1.0
    ensures ScoresWithin(DecayedAll(config.decayPerTick, kept), LowestScore(config))
  {
    hide Decayed, LowestScore;
    var decayed := DecayedAll(config.decayPerTick, kept);
    forall i | 0 <= i < |decayed| ensures LowestScore(config) <= decayed[i].score <= 1.0 {
      assert kept[i] in kept && decayed[i] == Decayed(config.decayPerTick, kept[i]);
      DecayedWithin(kept[i], config);
    }
  }

  lemma DecayedWithin(c: Concept, config: Config)
    requires 0.0 <= config.decayPerTick <= 1.0 && MIN_COHERENCE <= c.score <= 1.0
    ensures LowestScore(config) <= Decayed(config.decayPerTick, c).score <= 1.0
  {
    ScaledWithin(c.score, MIN_COHERENCE, config.decayPerTick);
  }

  /** In every run with probabilities and a decay factor between 0 and 1, all scores are. */
  lemma {:induction false} RunScores(inputs: seq<Input>, config: Config)
    requires forall i | 0 <= i < |inputs| :: inputs[i].Valid() && Communities.Consistent(inputs[i].model)
    requires 0.0 <= config.decayPerTick <= 1.0
    ensures ScoresWithin(Run(inputs, config).concepts, LowestScore(config)) && LowestScore(config) >= 0.0
  {
    ScaledWithin(MIN_COHERENCE, MIN_COHERENCE, config.decayPerTick);
    if inputs != [] {
      var last := |inputs| - 1;
      RunScores(inputs[..last], config);
      CycleScores(Run(inputs[..last], config), inputs[last], config);
    }
  }
}
