/**
  The bit accumulator: a counter of ones and a total weight, with a cap that rescales
  and rounds, and a periodic decay. The factor 0.975 is the exact fraction 39/40.
  */
module Accumulator {

  const W_MAX := 500
  const DECAY_INTERVAL := 50

  /** Python's `round` of n / d: to the nearest integer, halves to the even one. */
  function Round(n: int, d: int): (r: int)
    requires d > 0
  {
    var q, m := n / d, n % d;
    if 2 * m < d then q
    else if 2 * m > d then q + 1
    else if q % 2 == 0 then q else q + 1
  }

  datatype State = State(acc: int, weight: int) {
    /** The centroid bit. */
    predicate Bit() {
      acc > weight / 2
    }

    function Margin(): int {
      acc - weight / 2
    }

    /** At most as many ones as observations, within the cap. */
    predicate InRange() {
      0 <= acc <= weight <= W_MAX
    }
  }

  function Capped(acc: int, weight: int): State {
    if weight > W_MAX then State(Round(acc * W_MAX, weight), W_MAX) else State(acc, weight)
  }

  function Absorbed(s: State, bit: int): State {
    Capped(s.acc + bit, s.weight + 1)
  }

  function Refined(s: State): State {
    Absorbed(s, if s.Bit() then 1 else 0)
  }

  function Decayed(s: State): State {
    var weight := Round(39 * s.weight, 40);
    State(Round(39 * s.acc, 40), if weight < 1 then 1 else weight)
  }

  /** One tick of a cycle: -1 stands for a refinement, anything else is absorbed. */
  function Ticked(s: State, tau: int): State {
    if tau == -1 then Refined(s) else Absorbed(s, tau)
  }

  function AfterTicks(s: State, taus: seq<int>): State {
    if taus == [] then s else Ticked(AfterTicks(s, taus[..|taus| - 1]), taus[|taus| - 1])
  }

  datatype Record = Record(tick: nat, state: State, centroid: bool, margin: int)

  function RecordOf(tick: nat, s: State): Record {
    Record(tick, s, s.Bit(), s.Margin())
  }

  /** The records of the first n ticks: one for every tick divisible by `every`. */
  function Records(s: State, taus: seq<int>, n: nat, every: nat): seq<Record>
    requires n <= |taus| && every > 0
  {
    if n == 0 then []
    else if (n - 1) % every == 0 then
      Records(s, taus, n - 1, every) + [RecordOf(n - 1, AfterTicks(s, taus[..n]))]
    else Records(s, taus, n - 1, every)
  }

  /** The records are those of the ticks 0, every, 2*every and so on, each with the state after its tick. */
  lemma {:induction false} RecordsExactly(s: State, taus: seq<int>, n: nat, every: nat)
    requires n <= |taus| && every > 0
    ensures var r := Records(s, taus, n, every);
            && |r| == (n + every - 1) / every
            && forall k | 0 <= k < |r| ::
                 0 <= k * every < n && r[k] == RecordOf(k * every, AfterTicks(s, taus[..k * every + 1]))
  {
    if n > 0 {
      RecordsExactly(s, taus, n - 1, every);
      CountStep(n - 1, every);
    } else {
      assert (every - 1) / every == 0;
    }
  }

  /** The number of multiples below n + 1. */
  lemma CountStep(n: nat, every: nat)
    requires every > 0
    ensures (n + every) / every == (n + every - 1) / every + if n % every == 0 then 1 else 0
    ensures n % every == 0 ==> ((n + every - 1) / every) * every == n
  {
    var q, m := n / every, n % every;
    assert n == every * q + m;
    QuotientBetween(n + every, every, q + 1);
    QuotientBetween(n + every - 1, every, if m == 0 then q else q + 1);
  }

  lemma QuotientBetween(n: nat, d: nat, q: nat)
    requires d > 0 && d * q <= n < d * q + d
    ensures n / d == q
  {
    var p := n / d;
    assert n == d * p + n % d;
    MultipleGap(d, p, q);
    MultipleGap(d, q, p);
  }

  lemma MultipleGap(d: int, a: int, b: int)
    requires d > 0
    ensures a < b ==> d * a + d <= d * b
  {
    if a < b {
      ProductNotNegative(d, b - a - 1);
      DistributedGap(d, a, b - a - 1);
    }
  }

  lemma ProductNotNegative(d: int, k: int)
    requires d >= 0 && k >= 0
    ensures d * k >= 0
  {
  }

  lemma DistributedGap(d: int, a: int, k: int)
    ensures d * (a + 1 + k) == d * a + d + d * k
  {
  }

  lemma OneMoreTick(s: State, taus: seq<int>, tick: nat)
    requires tick < |taus|
    ensures AfterTicks(s, taus[..tick + 1]) == Ticked(AfterTicks(s, taus[..tick]), taus[tick])
  {
    assert taus[..tick + 1][..tick] == taus[..tick];
  }

  class SingleBitAccumulator {
    var acc: int
    var W: int

    ghost function Now(): State
      reads this
    {
      State(acc, W)
    }

    constructor (initialAcc: int, initialWeight: int)
      ensures Now() == State(initialAcc, initialWeight)
    {
      acc, W := initialAcc, initialWeight;
    }

    method CentroidBit() returns (bit: int)
      ensures bit == if Now().Bit() then 1 else 0
    {
      bit := if acc > W / 2 then 1 else 0;
    }

    method Absorb(tauBit: int)
      modifies this
      ensures Now() == Absorbed(old(Now()), tauBit)
    {
      acc := acc + tauBit;
      W := W + 1;
      if W > W_MAX {
        acc := Round(acc * W_MAX, W);
        W := W_MAX;
      }
    }

    method HebbianRefine()
      modifies this
      ensures Now() == Refined(old(Now()))
    {
      var bit := CentroidBit();
      acc := acc + bit;
      W := W + 1;
      if W > W_MAX {
        acc := Round(acc * W_MAX, W);
        W := W_MAX;
      }
    }

    method Decay()
      modifies this
      ensures Now() == Decayed(old(Now()))
    {
      acc := Round(39 * acc, 40);
      W := Round(39 * W, 40);
      if W < 1 { W := 1; }
    }

    /** One tick for every element of taus, then a decay. */
    method RunCycle(taus: seq<int>, recordEvery: nat) returns (history: seq<Record>)
      requires recordEvery > 0
      modifies this
      ensures Now() == Decayed(AfterTicks(old(Now()), taus))
      ensures history == Records(old(Now()), taus, |taus|, recordEvery) + [RecordOf(|taus|, Now())]
    {
      history := [];
      for tick := 0 to |taus|
        invariant Now() == AfterTicks(old(Now()), taus[..tick])
        invariant history == Records(old(Now()), taus, tick, recordEvery)
      {
        if taus[tick] == -1 {
          HebbianRefine();
        } else {
          Absorb(taus[tick]);
        }
        OneMoreTick(old(Now()), taus, tick);
        if tick % recordEvery == 0 {
          var bit := CentroidBit();
          history := history + [Record(tick, State(acc, W), bit == 1, acc - W / 2)];
          assert history[|history| - 1] == RecordOf(tick, Now());
        }
      }
      assert taus[..|taus|] == taus;
      Decay();
      var bit := CentroidBit();
      history := history + [Record(|taus|, State(acc, W), bit == 1, acc - W / 2)];
    }
  }

  // ----- rounding -----

  lemma RoundError(n: int, d: int)
    requires d > 0
    ensures -d <= 2 * (d * Round(n, d) - n) <= d
    ensures 2 * (d * Round(n, d) - n) == d || 2 * (d * Round(n, d) - n) == -d ==> Round(n, d) % 2 == 0
  {
    var q := n / d;
    assert n == d * q + n % d;
    assert d * (q + 1) == d * q + d;
  }

  // ----- the range -----

  /** One step over the cap takes one off every counter above half of it and leaves the others. */
  lemma CapLosesOne(acc: int)
    requires 0 <= acc <= 501
    ensures Capped(acc, 501) == State(if acc <= 250 then acc else acc - 1, 500)
  {
    var n := acc * W_MAX;
    assert n == 501 * acc - acc;
    if acc == 0 {
    } else {
      assert n / 501 == acc - 1 && n % 501 == 501 - acc;
    }
  }

  lemma AbsorbedExactly(s: State, bit: int)
    requires s.InRange() && 0 <= bit <= 1
    ensures Absorbed(s, bit) ==
            if s.weight < W_MAX then State(s.acc + bit, s.weight + 1)
            else State(if s.acc + bit <= W_MAX / 2 then s.acc + bit else s.acc + bit - 1, W_MAX)
  {
    CapLosesOne(s.acc + bit);
  }

  lemma DecayKeepsRange(s: State)
    requires s.InRange()
    ensures Decayed(s).InRange() && Decayed(s).weight >= 1
  {
  }

  /** Every step keeps 0 <= acc <= W <= 500. */
  lemma RangeKept(s: State, tau: int)
    requires s.InRange() && -1 <= tau <= 1
    ensures Ticked(s, tau).InRange()
  {
    var bit := if tau == -1 then (if s.Bit() then 1 else 0) else tau;
    AbsorbedExactly(s, bit);
  }

  /** So does every run of cycles. */
  lemma {:induction false} TicksKeepRange(s: State, taus: seq<int>)
    requires s.InRange() && forall i | 0 <= i < |taus| :: -1 <= taus[i] <= 1
    ensures AfterTicks(s, taus).InRange() && Decayed(AfterTicks(s, taus)).InRange()
  {
    if taus != [] {
      TicksKeepRange(s, taus[..|taus| - 1]);
      RangeKept(AfterTicks(s, taus[..|taus| - 1]), taus[|taus| - 1]);
    }
    DecayKeepsRange(AfterTicks(s, taus));
  }

  // ----- decay -----

  /** Lemma D1 with its best constant: the new margin is within 49/40 of 0.975 times the old one. */
  lemma DecayedMargin(s: State)
    requires s.weight >= 0
    ensures -49 <= 40 * Decayed(s).Margin() - 39 * s.Margin() <= 49
  {
    RoundError(39 * s.acc, 40);
    RoundError(39 * s.weight, 40);
    HalvedError(s.weight, Decayed(s).weight);
  }

  lemma HalvedError(w: int, w': int)
    requires -20 <= 40 * w' - 39 * w <= 20 || (w == 0 && w' == 1)
    requires 40 * w' - 39 * w == 20 || 40 * w' - 39 * w == -20 ==> w' % 2 == 0
    ensures -29 <= 40 * (w' / 2) - 39 * (w / 2) <= 29
  {
  }

  /** Both ends of the interval are reached, by states in range. */
  lemma DecayedMarginReached()
    ensures State(20, 22).InRange() && State(60, 139).InRange()
    ensures 40 * Decayed(State(20, 22)).Margin() - 39 * State(20, 22).Margin() == 49
    ensures 40 * Decayed(State(60, 139)).Margin() - 39 * State(60, 139).Margin() == -49
  {
  }

  /** Decay alone changes a centroid bit only at margins 0 and 1. */
  lemma DecayFlipsAtTheThreshold(s: State)
    requires s.weight >= 0 && Decayed(s).Bit() != s.Bit()
    ensures s.Margin() == (if s.Bit() then 1 else 0)
  {
    DecayedMargin(s);
  }

  /** At both of these margins some states do flip. */
  lemma DecayFlipsBothWays()
    ensures State(11, 22).Margin() == 0 && Decayed(State(11, 22)).Bit()
    ensures State(21, 41).Margin() == 1 && !Decayed(State(21, 41)).Bit()
  {
  }

  // ----- entrenchment -----

  function Repeat(tau: int, n: nat): (r: seq<int>)
    ensures |r| == n && forall i | 0 <= i < n :: r[i] == tau
  {
    seq(n, _ => tau)
  }

  lemma RepeatStep(s: State, tau: int, n: nat)
    ensures AfterTicks(s, Repeat(tau, n + 1)) == Ticked(AfterTicks(s, Repeat(tau, n)), tau)
  {
    assert Repeat(tau, n + 1)[..n] == Repeat(tau, n);
  }

  /** Of k ticks, those that come before the weight reaches the cap. */
  function BelowCap(s: State, k: nat): int {
    if k < W_MAX - s.weight then k else W_MAX - s.weight
  }

  /** Refining a 1-bit raises both counters up to the cap and changes nothing there. */
  lemma {:induction false} RefinedTicks(s: State, k: nat)
    requires s.InRange() && s.Bit()
    ensures var t := BelowCap(s, k);
            AfterTicks(s, Repeat(-1, k)) == State(s.acc + t, s.weight + t)
    ensures AfterTicks(s, Repeat(-1, k)).Bit()
  {
    if k > 0 {
      RefinedTicks(s, k - 1);
      RepeatStep(s, -1, k - 1);
      var t := BelowCap(s, k - 1);
      RefinedOnce(State(s.acc + t, s.weight + t));
    }
  }

  lemma RefinedOnce(s: State)
    requires s.InRange() && s.Bit()
    ensures Refined(s) == if s.weight < W_MAX then State(s.acc + 1, s.weight + 1) else s
  {
    AbsorbedExactly(s, 1);
  }

  /** n decay cycles of 50 refinements each. */
  function AfterCycles(s: State, n: nat): State {
    if n == 0 then s else Decayed(AfterTicks(AfterCycles(s, n - 1), Repeat(-1, DECAY_INTERVAL)))
  }

  lemma {:induction false} CyclesKeepBit(s: State, n: nat)
    requires s.InRange() && s.Bit()
    ensures AfterCycles(s, n).InRange() && AfterCycles(s, n).Bit()
  {
    if n > 0 {
      CyclesKeepBit(s, n - 1);
      var before := AfterCycles(s, n - 1);
      RefinedTicks(before, DECAY_INTERVAL);
      var after := AfterTicks(before, Repeat(-1, DECAY_INTERVAL));
      DecayKeepsRange(after);
      if after.weight < W_MAX { DecayedMargin(after); }
    }
  }

  /**
    A 1-bit that only refines itself is never lost: not at any tick of any cycle, and not
    at any decay. The margin of 3 that the source asks for is not needed.
    */
  lemma Entrenched(s: State, cycles: nat, ticks: nat)
    requires s.InRange() && s.Bit()
    ensures AfterTicks(AfterCycles(s, cycles), Repeat(-1, ticks)).Bit()
  {
    CyclesKeepBit(s, cycles);
    RefinedTicks(AfterCycles(s, cycles), ticks);
  }

  // ----- contradiction -----

  /** The tick at which a stream of zeros turns the bit off. */
  function FlipTick(s: State): int {
    if 2 * s.acc <= W_MAX then 2 * s.acc - s.weight else (W_MAX - s.weight) + (s.acc - W_MAX / 2)
  }

  function AfterZeros(s: State, k: nat): State {
    AfterTicks(s, Repeat(0, k))
  }

  /** Zeros leave the counter alone below the cap; at the cap they lower it by one while the bit is on. */
  lemma {:induction false} ZerosBelowCap(s: State, k: nat)
    requires s.InRange() && s.weight + k <= W_MAX
    ensures AfterZeros(s, k) == State(s.acc, s.weight + k)
  {
    if k > 0 {
      ZerosBelowCap(s, k - 1);
      RepeatStep(s, 0, k - 1);
      AbsorbedExactly(State(s.acc, s.weight + k - 1), 0);
    }
  }

  lemma {:induction false} ZerosAtCap(s: State, k: nat)
    requires s.InRange() && s.weight + k >= W_MAX
    ensures var j := k - (W_MAX - s.weight);
            var a := AfterZeros(s, k).acc;
            && AfterZeros(s, k).weight == W_MAX
            && (if s.acc - j >= W_MAX / 2 then a == s.acc - j else 0 <= a <= W_MAX / 2)
    decreases k
  {
    if s.weight + k == W_MAX {
      ZerosBelowCap(s, k);
    } else {
      ZerosAtCap(s, k - 1);
      RepeatStep(s, 0, k - 1);
      AbsorbedExactly(AfterZeros(s, k - 1), 0);
    }
  }

  /** The bit is on before the flip tick and off from then on. */
  lemma FlipTickExact(s: State, k: nat)
    requires s.InRange() && s.Bit()
    ensures AfterZeros(s, k).Bit() <==> k < FlipTick(s)
  {
    if s.weight + k <= W_MAX {
      ZerosBelowCap(s, k);
    } else {
      ZerosAtCap(s, k);
    }
  }

  /** Below the cap this is the first k with a <= floor((W + k) / 2), as the source predicts. */
  lemma FlipTickPrediction(s: State, k: nat)
    requires s.InRange() && s.Bit() && 2 * s.acc <= W_MAX
    ensures k < FlipTick(s) <==> s.acc > (s.weight + k) / 2
  {
  }

  // ----- vectors -----

  /** One counter per dimension, over a common weight. */
  datatype Cluster = Cluster(acc: seq<int>, weight: int) {
    ghost predicate InRange() {
      forall i | 0 <= i < |acc| :: State(acc[i], weight).InRange()
    }
  }

  type Bits = seq<bool>

  function Indicator(b: bool): int {
    if b then 1 else 0
  }

  function Centroid(c: Cluster): (r: Bits)
    ensures |r| == |c.acc| && forall i | 0 <= i < |r| :: r[i] == State(c.acc[i], c.weight).Bit()
  {
    seq(|c.acc|, i requires 0 <= i < |c.acc| => State(c.acc[i], c.weight).Bit())
  }

  /** Absorption of an observation, bit by bit, with the cap step. */
  function AbsorbedBits(c: Cluster, v: Bits): (r: Cluster)
    requires |v| == |c.acc|
    ensures |r.acc| == |c.acc|
    ensures forall i | 0 <= i < |v| ::
              State(r.acc[i], r.weight) == Absorbed(State(c.acc[i], c.weight), Indicator(v[i]))
  {
    Cluster(
      seq(|v|, i requires 0 <= i < |v| => Absorbed(State(c.acc[i], c.weight), Indicator(v[i])).acc),
      if c.weight + 1 > W_MAX then W_MAX else c.weight + 1)
  }

  function Hamming(x: Bits, y: Bits): nat
    requires |x| == |y|
  {
    if x == [] then 0 else Indicator(x[0] != y[0]) + Hamming(x[1..], y[1..])
  }

  /** Where two vectors differ only if two others do, their distance is at most that of the others. */
  lemma {:induction false} HammingMonotone(x: Bits, y: Bits, u: Bits, v: Bits)
    requires |x| == |y| == |u| == |v|
    requires forall i | 0 <= i < |x| :: x[i] != y[i] ==> u[i] != v[i]
    ensures Hamming(x, y) <= Hamming(u, v)
  {
    if x != [] {
      HammingMonotone(x[1..], y[1..], u[1..], v[1..]);
    }
  }

  /** A bit that agrees with the observation keeps its value, at the cap as well. */
  lemma AgreementKeepsBit(s: State, b: bool)
    requires s.InRange() && s.Bit() == b
    ensures Absorbed(s, Indicator(b)).Bit() == b
  {
    AbsorbedExactly(s, Indicator(b));
  }

  /** One absorption moves the centroid by at most its distance from the observation. */
  lemma CentroidShift(c: Cluster, v: Bits)
    requires c.InRange() && |v| == |c.acc|
    ensures Hamming(Centroid(c), Centroid(AbsorbedBits(c, v))) <= Hamming(Centroid(c), v)
  {
    forall i | 0 <= i < |v| && Centroid(c)[i] != Centroid(AbsorbedBits(c, v))[i]
      ensures Centroid(c)[i] != v[i]
    {
      if Centroid(c)[i] == v[i] {
        AgreementKeepsBit(State(c.acc[i], c.weight), v[i]);
      }
    }
    HammingMonotone(Centroid(c), Centroid(AbsorbedBits(c, v)), Centroid(c), v);
  }

  /** Two observations move the same cluster to centroids no further apart than themselves. */
  lemma AbsorptionNonExpansive(c: Cluster, v: Bits, w: Bits)
    requires |v| == |w| == |c.acc|
    ensures Hamming(Centroid(AbsorbedBits(c, v)), Centroid(AbsorbedBits(c, w))) <= Hamming(v, w)
  {
    HammingMonotone(Centroid(AbsorbedBits(c, v)), Centroid(AbsorbedBits(c, w)), v, w);
  }

  /** The one counter at which the absorbed bit decides the centroid bit. */
  function Critical(weight: int): int {
    if weight < W_MAX then (weight + 1) / 2 else W_MAX / 2 + 1
  }

  /** An absorbed bit shows exactly at the critical counter. */
  lemma BitShowsExactly(s: State)
    requires s.InRange()
    ensures Absorbed(s, 0).Bit() != Absorbed(s, 1).Bit() <==> s.acc == Critical(s.weight)
    ensures s.acc == Critical(s.weight) ==> !Absorbed(s, 0).Bit() && Absorbed(s, 1).Bit()
  {
    AbsorbedExactly(s, 0);
    AbsorbedExactly(s, 1);
  }

  /** Distances that are ordered position by position are equal exactly when no position is lost. */
  lemma {:induction false} HammingEqual(x: Bits, y: Bits, u: Bits, v: Bits)
    requires |x| == |y| == |u| == |v|
    requires forall i | 0 <= i < |x| :: x[i] != y[i] ==> u[i] != v[i]
    ensures Hamming(x, y) == Hamming(u, v) <==> forall i | 0 <= i < |x| && u[i] != v[i] :: x[i] != y[i]
  {
    if x != [] {
      HammingEqual(x[1..], y[1..], u[1..], v[1..]);
      HammingMonotone(x[1..], y[1..], u[1..], v[1..]);
      AllButFirst(x, y, u, v);
    }
  }

  lemma AllButFirst(x: Bits, y: Bits, u: Bits, v: Bits)
    requires |x| == |y| == |u| == |v| > 0
    ensures (forall i | 0 <= i < |x| && u[i] != v[i] :: x[i] != y[i]) <==>
            && (u[0] != v[0] ==> x[0] != y[0])
            && forall i | 0 <= i < |x[1..]| && u[1..][i] != v[1..][i] :: x[1..][i] != y[1..][i]
  {
    if forall i | 0 <= i < |x[1..]| && u[1..][i] != v[1..][i] :: x[1..][i] != y[1..][i] {
      forall i | 0 < i < |x| && u[i] != v[i] ensures x[i] != y[i] {
        assert u[1..][i - 1] == u[i] && v[1..][i - 1] == v[i] && x[1..][i - 1] == x[i] && y[1..][i - 1] == y[i];
      }
    }
  }

  /** Two absorptions are as far apart as the observations. */
  predicate ReachesBound(c: Cluster, v: Bits, w: Bits)
    requires |v| == |w| == |c.acc|
  {
    Hamming(Centroid(AbsorbedBits(c, v)), Centroid(AbsorbedBits(c, w))) == Hamming(v, w)
  }

  /** The bound is reached exactly when every counter at which the observations differ is critical. */
  lemma BoundReachedExactly(c: Cluster, v: Bits, w: Bits)
    requires c.InRange() && |v| == |w| == |c.acc|
    ensures ReachesBound(c, v, w) <==> forall i | 0 <= i < |v| && v[i] != w[i] :: c.acc[i] == Critical(c.weight)
  {
    var x, y := Centroid(AbsorbedBits(c, v)), Centroid(AbsorbedBits(c, w));
    forall i | 0 <= i < |v| ensures x[i] != y[i] <==> v[i] != w[i] && c.acc[i] == Critical(c.weight) {
      BitShowsExactly(State(c.acc[i], c.weight));
    }
    HammingEqual(x, y, v, w);
  }

  /** Every counter stands at floor(W / 2), the condition the source gives for the bound. */
  predicate AtThreshold(c: Cluster) {
    forall i | 0 <= i < |c.acc| :: c.acc[i] == c.weight / 2
  }

  ghost predicate ReachesEveryBound(c: Cluster) {
    forall v: Bits, w: Bits | |v| == |w| == |c.acc| :: ReachesBound(c, v, w)
  }

  /** Counters at floor(W / 2) reach the bound for every pair exactly for even weights below the cap. */
  lemma ThresholdReachesExactly(c: Cluster)
    requires c.InRange() && AtThreshold(c) && c.acc != []
    ensures ReachesEveryBound(c) <==> c.weight % 2 == 0 && c.weight < W_MAX
  {
    assert State(c.acc[0], c.weight).InRange();
    assert c.weight / 2 == Critical(c.weight) <==> c.weight % 2 == 0 && c.weight < W_MAX;
    if c.weight / 2 == Critical(c.weight) {
      forall v: Bits, w: Bits | |v| == |w| == |c.acc| ensures ReachesBound(c, v, w) {
        BoundReachedExactly(c, v, w);
      }
    } else {
      var v, w := seq(|c.acc|, _ => false), seq(|c.acc|, _ => true);
      BoundReachedExactly(c, v, w);
      assert v[0] != w[0] && !ReachesBound(c, v, w);
    }
  }

  /** Where it is reached for every pair, the centroid becomes the observation. */
  lemma AbsorptionBoundReached(c: Cluster, v: Bits, w: Bits)
    requires |v| == |w| == |c.acc| && 0 <= c.weight < W_MAX && c.weight % 2 == 0 && AtThreshold(c)
    ensures Centroid(AbsorbedBits(c, v)) == v && Centroid(AbsorbedBits(c, w)) == w
    ensures ReachesBound(c, v, w)
  {
    assert Centroid(AbsorbedBits(c, v)) == v;
    assert Centroid(AbsorbedBits(c, w)) == w;
  }

  /** For odd weights and at the cap they hide every observation: the centroid is 0 whatever is absorbed. */
  lemma ThresholdHidesObservation(c: Cluster, v: Bits)
    requires |v| == |c.acc| && 0 <= c.weight <= W_MAX && AtThreshold(c)
    requires c.weight % 2 == 1 || c.weight == W_MAX
    ensures forall i | 0 <= i < |v| :: !Centroid(AbsorbedBits(c, v))[i]
  {
    forall i | 0 <= i < |v| ensures !Centroid(AbsorbedBits(c, v))[i] {
      AbsorbedExactly(State(c.acc[i], c.weight), Indicator(v[i]));
    }
  }

  /** One counter at the cap, with floor(500 / 2) ones: opposite observations leave the same centroid. */
  lemma CapHidesObservation()
    ensures var c := Cluster([250], 500);
            && c.InRange() && AtThreshold(c) && c.weight % 2 == 0
            && Hamming([false], [true]) == 1
            && Centroid(AbsorbedBits(c, [false])) == Centroid(AbsorbedBits(c, [true])) == [false]
            && !ReachesBound(c, [false], [true])
  {
    var c := Cluster([250], 500);
    ThresholdHidesObservation(c, [false]);
    ThresholdHidesObservation(c, [true]);
    assert [false][1..] == [] && Hamming([], []) == 0;
    assert Centroid(AbsorbedBits(c, [false])) == [false] == Centroid(AbsorbedBits(c, [true]));
    BoundReachedExactly(c, [false], [true]);
    assert [false][0] != [true][0] && c.acc[0] != Critical(c.weight);
  }

  // ----- isometries -----

  /** `xor` of two vectors. */
  function Xor(x: Bits, y: Bits): (r: Bits)
    requires |x| == |y|
    ensures |r| == |x| && forall i | 0 <= i < |r| :: r[i] == (x[i] != y[i])
  {
    seq(|x|, i requires 0 <= i < |x| => x[i] != y[i])
  }

  /** `rot`: the shift is first reduced modulo the length. */
  function Rot(v: Bits, k: int): (r: Bits)
    requires v != []
    ensures |r| == |v|
  {
    v[k % |v|..] + v[..k % |v|]
  }

  lemma {:induction false} HammingConcat(x: Bits, y: Bits, u: Bits, v: Bits)
    requires |x| == |y| && |u| == |v|
    ensures Hamming(x + u, y + v) == Hamming(x, y) + Hamming(u, v)
  {
    if x == [] {
      assert x + u == u && y + v == v;
    } else {
      HammingConcat(x[1..], y[1..], u, v);
      assert (x + u)[1..] == x[1..] + u && (y + v)[1..] == y[1..] + v;
    }
  }

  lemma XorIsometry(x: Bits, y: Bits, r: Bits)
    requires |x| == |y| == |r|
    ensures Hamming(Xor(x, r), Xor(y, r)) == Hamming(x, y)
  {
    HammingMonotone(Xor(x, r), Xor(y, r), x, y);
    HammingMonotone(x, y, Xor(x, r), Xor(y, r));
  }

  lemma RotIsometry(x: Bits, y: Bits, k: int)
    requires |x| == |y| > 0
    ensures Hamming(Rot(x, k), Rot(y, k)) == Hamming(x, y)
  {
    hide Hamming;
    var j := k % |x|;
    PartsSwapped(x[..j], x[j..], y[..j], y[j..]);
    assert x == x[..j] + x[j..] && y == y[..j] + y[j..];
    assert Rot(x, k) == x[j..] + x[..j] && Rot(y, k) == y[j..] + y[..j];
  }

  lemma PartsSwapped(x: Bits, u: Bits, y: Bits, v: Bits)
    requires |x| == |y| && |u| == |v|
    ensures Hamming(u + x, v + y) == Hamming(x + u, y + v)
  {
    HammingConcat(x, y, u, v);
    HammingConcat(u, v, x, y);
  }

  /** Binding by rotation and xor is an isometry in each argument. */
  function RoleBind(x: Bits, y: Bits): Bits
    requires |x| == |y| > 0
  {
    Xor(Rot(x, 3), Rot(y, 7))
  }

  lemma RoleBindIsometry(x: Bits, x': Bits, y: Bits, y': Bits)
    requires |x| == |x'| == |y| == |y'| > 0
    ensures Hamming(RoleBind(x, y), RoleBind(x', y)) == Hamming(x, x')
    ensures Hamming(RoleBind(x, y), RoleBind(x, y')) == Hamming(y, y')
  {
    XorIsometry(Rot(x, 3), Rot(x', 3), Rot(y, 7));
    RotIsometry(x, x', 3);
    XorIsometry(Rot(y, 7), Rot(y', 7), Rot(x, 3));
    assert Xor(Rot(y, 7), Rot(x, 3)) == RoleBind(x, y);
    assert Xor(Rot(y', 7), Rot(x, 3)) == RoleBind(x, y');
    RotIsometry(y, y', 7);
  }
}
