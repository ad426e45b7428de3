/** Detection of temporal communities: label propagation for regimes, greedy tracing for chains. */
module Communities {
  import opened Wrappers
  import opened Ordering
  import opened RealFacts

  const MIN_TRANSITIONS := 5
  const MAX_ITERATIONS := 20

  datatype TransitionModel = TransitionModel(counts: seq<seq<nat>>, rowSums: seq<nat>, maxCentroids: nat) {
    predicate Valid() {
      && |rowSums| == maxCentroids
      && |counts| == maxCentroids
      && forall i | 0 <= i < |counts| :: |counts[i]| == maxCentroids
    }

    function Probability(from: nat, to: nat): real
      requires Valid()
    {
      if from >= maxCentroids || to >= maxCentroids || rowSums[from] == 0 then 0.0
      else counts[from][to] as real / rowSums[from] as real
    }

    function Mutual(i: nat, j: nat): real
      requires Valid()
    {
      (Probability(i, j) + Probability(j, i)) / 2.0
    }

    predicate Observed(i: nat)
      requires Valid()
    {
      i < maxCentroids && rowSums[i] >= MIN_TRANSITIONS
    }
  }

  function SumRow(row: seq<nat>): nat {
    if row == [] then 0 else SumRow(row[..|row| - 1]) + row[|row| - 1]
  }

  /** Every row sum is the sum of its row. */
  predicate Consistent(m: TransitionModel) {
    m.Valid() && forall i | 0 <= i < |m.counts| :: m.rowSums[i] == SumRow(m.counts[i])
  }

  lemma {:induction false} EntryBelowSum(row: seq<nat>, j: nat)
    requires j < |row|
    ensures row[j] <= SumRow(row)
  {
    if j < |row| - 1 { EntryBelowSum(row[..|row| - 1], j); }
  }

  /** The probabilities of the first n targets, added up. */
  function OutSum(m: TransitionModel, i: nat, n: nat): real
    requires m.Valid()
  {
    if n == 0 then 0.0 else OutSum(m, i, n - 1) + m.Probability(i, n - 1)
  }

  lemma {:induction false} OutSumIsQuotient(m: TransitionModel, i: nat, n: nat)
    requires Consistent(m) && i < m.maxCentroids && m.rowSums[i] > 0 && n <= m.maxCentroids
    ensures OutSum(m, i, n) == SumRow(m.counts[i][..n]) as real / m.rowSums[i] as real
  {
    if n > 0 {
      OutSumIsQuotient(m, i, n - 1);
      assert m.counts[i][..n][..n - 1] == m.counts[i][..n - 1];
      QuotientsAdd(SumRow(m.counts[i][..n - 1]) as real, m.counts[i][n - 1] as real, m.rowSums[i] as real);
    }
  }

  lemma QuotientsAdd(a: real, b: real, c: real)
    requires c > 0.0
    ensures a / c + b / c == (a + b) / c
  {
    var p, q, s := a / c, b / c, (a + b) / c;
    assert p * c == a && q * c == b && s * c == a + b;
    assert (p + q - s) * c == 0.0;
  }

  /** Probabilities lie between 0 and 1, and those out of a state with transitions add up to 1. */
  lemma ProbabilitiesAddUp(m: TransitionModel, i: nat, j: nat)
    requires Consistent(m)
    ensures 0.0 <= m.Probability(i, j) <= 1.0
    ensures i < m.maxCentroids && m.rowSums[i] > 0 ==> OutSum(m, i, m.maxCentroids) == 1.0
  {
    if i < m.maxCentroids && m.rowSums[i] > 0 {
      OutSumIsQuotient(m, i, m.maxCentroids);
      assert m.counts[i][..m.maxCentroids] == m.counts[i];
      WholeQuotient(m.rowSums[i] as real);
      if j < m.maxCentroids {
        EntryBelowSum(m.counts[i], j);
        QuotientRange(m.counts[i][j] as real, m.rowSums[i] as real);
      }
    }
  }

  lemma WholeQuotient(c: real)
    requires c > 0.0
    ensures c / c == 1.0
  {
  }

  lemma QuotientRange(a: real, c: real)
    requires 0.0 <= a <= c && c > 0.0
    ensures 0.0 <= a / c <= 1.0
  {
    assert (a / c) * c == a;
  }

  /** The mutual probability is half way between the two directions, and the same both ways. */
  lemma MutualIsMean(m: TransitionModel, i: nat, j: nat)
    requires m.Valid()
    ensures m.Mutual(i, j) == m.Mutual(j, i)
    ensures m.Mutual(i, j) - m.Probability(i, j) == m.Probability(j, i) - m.Mutual(i, j)
  {
  }

  datatype Kind = BidirectionalRegime | UnidirectionalChain

  datatype Community = Community(kind: Kind, members: seq<nat>, cohesion: real)

  // ----- the thresholded graph -----

  predicate Linked(m: TransitionModel, minP: real, i: nat, j: nat)
    requires m.Valid()
  {
    i < m.maxCentroids && j < m.maxCentroids && i != j && m.Mutual(i, j) >= minP
  }

  ghost predicate IsPath(m: TransitionModel, minP: real, path: seq<nat>)
    requires m.Valid()
  {
    && path != []
    && (forall t | 0 <= t < |path| :: path[t] < m.maxCentroids)
    && forall t | 0 <= t < |path| - 1 :: Linked(m, minP, path[t], path[t + 1])
  }

  ghost predicate Joins(path: seq<nat>, i: nat, j: nat) {
    path != [] && path[0] == i && path[|path| - 1] == j
  }

  /** i and j lie in one connected component. */
  ghost predicate Connected(m: TransitionModel, minP: real, i: nat, j: nat)
    requires m.Valid()
  {
    exists path :: IsPath(m, minP, path) && Joins(path, i, j)
  }

  lemma ConnectedToItself(m: TransitionModel, minP: real, i: nat)
    requires m.Valid() && i < m.maxCentroids
    ensures Connected(m, minP, i, i)
  {
    assert IsPath(m, minP, [i]) && Joins([i], i, i);
  }

  lemma ConnectedThrough(m: TransitionModel, minP: real, i: nat, j: nat, l: nat)
    requires m.Valid() && Linked(m, minP, i, j) && Connected(m, minP, j, l)
    ensures Connected(m, minP, i, l)
  {
    var path :| IsPath(m, minP, path) && Joins(path, j, l);
    assert IsPath(m, minP, [i] + path) && Joins([i] + path, i, l);
  }

  function Reversed(s: seq<nat>): (r: seq<nat>)
    ensures |r| == |s| && forall t | 0 <= t < |s| :: r[t] == s[|s| - 1 - t]
  {
    seq(|s|, t requires 0 <= t < |s| => s[|s| - 1 - t])
  }

  lemma ConnectedBackwards(m: TransitionModel, minP: real, i: nat, j: nat)
    requires m.Valid() && Connected(m, minP, i, j)
    ensures Connected(m, minP, j, i)
  {
    var path :| IsPath(m, minP, path) && Joins(path, i, j);
    var back := Reversed(path);
    forall t | 0 <= t < |back| - 1 ensures Linked(m, minP, back[t], back[t + 1]) {
      var u := |path| - 2 - t;
      assert Linked(m, minP, path[u], path[u + 1]);
    }
    assert IsPath(m, minP, back) && Joins(back, j, i);
  }

  /** Two nodes connected to a third are connected to each other. */
  lemma {:induction false} ConnectedByThird(m: TransitionModel, minP: real, i: nat, j: nat, l: nat)
    requires m.Valid() && Connected(m, minP, i, l) && Connected(m, minP, j, l)
    ensures Connected(m, minP, i, j)
  {
    ConnectedBackwards(m, minP, j, l);
    var path :| IsPath(m, minP, path) && Joins(path, i, l);
    ExtendedBy(m, minP, path, i, l, j);
  }

  lemma {:induction false} ExtendedBy(m: TransitionModel, minP: real, path: seq<nat>, i: nat, l: nat, j: nat)
    requires m.Valid() && IsPath(m, minP, path) && Joins(path, i, l) && Connected(m, minP, l, j)
    ensures Connected(m, minP, i, j)
  {
    if |path| > 1 {
      assert Linked(m, minP, path[0], path[1]);
      forall t | 0 <= t < |path| - 2 ensures Linked(m, minP, path[1..][t], path[1..][t + 1]) {
        assert Linked(m, minP, path[t + 1], path[t + 2]);
      }
      ExtendedBy(m, minP, path[1..], path[1], l, j);
      ConnectedThrough(m, minP, i, path[1], j);
    }
  }

  function Neighbours(m: TransitionModel, minP: real, i: nat, n: nat): (r: seq<nat>)
    requires m.Valid()
    ensures forall t | 0 <= t < |r| :: Linked(m, minP, i, r[t])
  {
    if n == 0 then []
    else Neighbours(m, minP, i, n - 1) + if Linked(m, minP, i, n - 1) then [n - 1] else []
  }

  method BuildAdjacency(m: TransitionModel, minP: real) returns (adj: seq<seq<nat>>)
    requires m.Valid()
    ensures |adj| == m.maxCentroids
    ensures forall i | 0 <= i < |adj| :: adj[i] == Neighbours(m, minP, i, m.maxCentroids)
  {
    adj := [];
    for i := 0 to m.maxCentroids
      invariant |adj| == i
      invariant forall t | 0 <= t < i :: adj[t] == Neighbours(m, minP, t, m.maxCentroids)
    {
      var row := [];
      for j := 0 to m.maxCentroids
        invariant row == Neighbours(m, minP, i, j)
      {
        if i != j && m.Mutual(i, j) >= minP {
          row := row + [j];
        }
      }
      adj := adj + [row];
    }
  }

  // ----- label propagation -----

  predicate Below(s: seq<nat>, n: nat) {
    forall t | 0 <= t < |s| :: s[t] < n
  }

  /** Stable insertion: before the first node whose degree is not greater. */
  function InsertByDegree(adj: seq<seq<nat>>, x: nat, s: seq<nat>): (r: seq<nat>)
    requires x < |adj| && Below(s, |adj|)
    ensures Below(r, |adj|)
  {
    if s == [] || |adj[s[0]]| <= |adj[x]| then [x] + s
    else [s[0]] + InsertByDegree(adj, x, s[1..])
  }

  /** The nodes from n on, in descending order of degree. */
  function DegreeOrder(adj: seq<seq<nat>>, n: nat): (r: seq<nat>)
    requires n <= |adj|
    ensures Below(r, |adj|)
    decreases |adj| - n
  {
    if n == |adj| then [] else InsertByDegree(adj, n, DegreeOrder(adj, n + 1))
  }

  function Occurrences(neighbours: seq<nat>, labels: seq<nat>, l: nat): nat
    requires Below(neighbours, |labels|)
  {
    if neighbours == [] then 0
    else
      var n := |neighbours| - 1;
      Occurrences(neighbours[..n], labels, l) + if labels[neighbours[n]] == l then 1 else 0
  }

  /** Some neighbour has the label, and no label is more frequent among them. */
  ghost predicate IsMostFrequent(neighbours: seq<nat>, labels: seq<nat>, best: nat)
    requires Below(neighbours, |labels|)
  {
    && (exists t | 0 <= t < |neighbours| :: labels[neighbours[t]] == best)
    && forall l :: Occurrences(neighbours, labels, l) <= Occurrences(neighbours, labels, best)
  }

  lemma {:induction false} LargestKey(counts: map<nat, nat>, keys: set<nat>)
    requires keys != {} && keys <= counts.Keys
    ensures exists l :: l in keys && forall k | k in keys :: counts[k] <= counts[l]
  {
    var x :| x in keys;
    var rest := keys - {x};
    if rest == {} {
      assert keys == {x};
    } else {
      LargestKey(counts, rest);
      var l :| l in rest && forall k | k in rest :: counts[k] <= counts[l];
      var larger := if counts[x] >= counts[l] then x else l;
      assert larger in keys && forall k | k in keys :: k == x || k in rest;
    }
  }

  /** A most frequent label among the neighbours; which one is left open when several are. */
  method BestLabel(neighbours: seq<nat>, labels: seq<nat>) returns (best: nat)
    requires neighbours != [] && Below(neighbours, |labels|)
    ensures IsMostFrequent(neighbours, labels, best)
  {
    var counts: map<nat, nat> := map[];
    for t := 0 to |neighbours|
      invariant forall l :: l in counts ==> counts[l] == Occurrences(neighbours[..t], labels, l)
      invariant forall l :: l !in counts ==> Occurrences(neighbours[..t], labels, l) == 0
      invariant forall l | l in counts :: exists u | 0 <= u < t :: labels[neighbours[u]] == l
      invariant t > 0 ==> labels[neighbours[0]] in counts
    {
      assert neighbours[..t + 1][..t] == neighbours[..t];
      var l := labels[neighbours[t]];
      counts := counts[l := if l in counts then counts[l] + 1 else 1];
    }
    assert neighbours[..|neighbours|] == neighbours;
    LargestKey(counts, counts.Keys);
    best :| best in counts && forall k | k in counts :: counts[k] <= counts[best];
  }

  /** Every label names a node of its owner's component. */
  ghost predicate LabelsInside(m: TransitionModel, minP: real, labels: seq<nat>)
    requires m.Valid()
  {
    && |labels| == m.maxCentroids
    && forall i | 0 <= i < |labels| :: Connected(m, minP, i, labels[i])
  }

  /** No node would change its label: it has a most frequent one among its neighbours, or no neighbours. */
  ghost predicate Stable(m: TransitionModel, minP: real, labels: seq<nat>)
    requires m.Valid() && |labels| == m.maxCentroids
  {
    forall i: nat | i < |labels| :: IsSettled(m, minP, labels, i)
  }

  ghost predicate IsSettled(m: TransitionModel, minP: real, labels: seq<nat>, i: nat)
    requires m.Valid() && |labels| == m.maxCentroids && i < |labels|
  {
    var neighbours := Neighbours(m, minP, i, m.maxCentroids);
    NeighboursBelow(m, minP, i);
    neighbours == [] || IsMostFrequent(neighbours, labels, labels[i])
  }

  lemma NeighboursBelow(m: TransitionModel, minP: real, i: nat)
    requires m.Valid()
    ensures Below(Neighbours(m, minP, i, m.maxCentroids), m.maxCentroids)
  {
    var r := Neighbours(m, minP, i, m.maxCentroids);
    forall t | 0 <= t < |r| ensures r[t] < m.maxCentroids {
      assert Linked(m, minP, i, r[t]);
    }
  }

  lemma {:induction false} DegreeOrderCovers(adj: seq<seq<nat>>, n: nat)
    requires n <= |adj|
    ensures forall x: nat | n <= x < |adj| :: x in DegreeOrder(adj, n)
    decreases |adj| - n
  {
    if n < |adj| {
      DegreeOrderCovers(adj, n + 1);
      Inserted(adj, n, DegreeOrder(adj, n + 1));
    }
  }

  lemma {:induction false} Inserted(adj: seq<seq<nat>>, x: nat, s: seq<nat>)
    requires x < |adj| && Below(s, |adj|)
    ensures forall y :: y in InsertByDegree(adj, x, s) <==> y == x || y in s
  {
    if s != [] { Inserted(adj, x, s[1..]); }
  }

  /** x comes before y: it has more neighbours, or as many and the smaller number. */
  predicate ComesBefore(adj: seq<seq<nat>>, x: nat, y: nat)
    requires x < |adj| && y < |adj|
  {
    |adj[x]| > |adj[y]| || (|adj[x]| == |adj[y]| && x < y)
  }

  predicate OrderedByDegree(adj: seq<seq<nat>>, s: seq<nat>) {
    Below(s, |adj|) && forall t, u | 0 <= t < u < |s| :: ComesBefore(adj, s[t], s[u])
  }

  lemma {:induction false} InsertedInOrder(adj: seq<seq<nat>>, x: nat, s: seq<nat>)
    requires x < |adj| && OrderedByDegree(adj, s) && forall y | y in s :: x < y
    ensures OrderedByDegree(adj, InsertByDegree(adj, x, s))
  {
    if s != [] && |adj[s[0]]| > |adj[x]| {
      var tail := InsertByDegree(adj, x, s[1..]);
      assert forall y | y in s[1..] :: y in s;
      InsertedInOrder(adj, x, s[1..]);
      Inserted(adj, x, s[1..]);
      forall u | 0 <= u < |tail| ensures ComesBefore(adj, s[0], tail[u]) {
        assert tail[u] in tail;
        if tail[u] != x {
          var k :| 0 <= k < |s[1..]| && s[1..][k] == tail[u];
          assert s[k + 1] == tail[u];
        }
      }
    } else if s != [] {
      forall u | 0 <= u < |s| ensures ComesBefore(adj, x, s[u]) {
        assert s[u] in s;
        if u > 0 { assert ComesBefore(adj, s[0], s[u]); }
      }
    }
  }

  /** The order goes through the nodes by falling degree, and by number among equals, each once. */
  lemma {:induction false} DegreeOrderSorted(adj: seq<seq<nat>>, n: nat)
    requires n <= |adj|
    ensures OrderedByDegree(adj, DegreeOrder(adj, n))
    ensures forall y :: y in DegreeOrder(adj, n) <==> n <= y < |adj|
    decreases |adj| - n
  {
    if n < |adj| {
      DegreeOrderSorted(adj, n + 1);
      InsertedInOrder(adj, n, DegreeOrder(adj, n + 1));
      Inserted(adj, n, DegreeOrder(adj, n + 1));
    }
  }

  // ----- rounds -----

  /** One node: without neighbours it keeps its label, otherwise it takes a most frequent one among theirs. */
  ghost predicate IsUpdate(m: TransitionModel, minP: real, before: seq<nat>, after: seq<nat>, node: nat)
    requires m.Valid() && |before| == m.maxCentroids
  {
    var neighbours := Neighbours(m, minP, node, m.maxCentroids);
    NeighboursBelow(m, minP, node);
    if neighbours == [] then after == before
    else exists best: nat :: IsMostFrequent(neighbours, before, best) && IsRelabelled(before, after, node, best)
  }

  predicate IsRelabelled(before: seq<nat>, after: seq<nat>, node: nat, best: nat) {
    node < |before| && after == before[node := best]
  }

  /** The states of one round: the nodes of `order`, one after the other. */
  ghost predicate IsTrace(m: TransitionModel, minP: real, trace: seq<seq<nat>>, order: seq<nat>)
    requires m.Valid()
  {
    && |trace| == |order| + 1
    && (forall t | 0 <= t < |trace| :: |trace[t]| == m.maxCentroids)
    && forall t | 0 <= t < |order| :: IsUpdate(m, minP, trace[t], trace[t + 1], order[t])
  }

  /** One round over all nodes, in the order of their degrees. */
  ghost predicate IsRound(m: TransitionModel, minP: real, before: seq<nat>, after: seq<nat>)
    requires m.Valid()
  {
    exists trace: seq<seq<nat>> :: IsRoundTrace(m, minP, before, after, trace)
  }

  ghost predicate IsRoundTrace(m: TransitionModel, minP: real, before: seq<nat>, after: seq<nat>,
                               trace: seq<seq<nat>>)
    requires m.Valid()
  {
    && IsTrace(m, minP, trace, DegreeOrder(Adjacency(m, minP), 0))
    && trace[0] == before && trace[|trace| - 1] == after
  }

  function Adjacency(m: TransitionModel, minP: real): (adj: seq<seq<nat>>)
    requires m.Valid()
    ensures |adj| == m.maxCentroids
    ensures forall i | 0 <= i < |adj| :: adj[i] == Neighbours(m, minP, i, m.maxCentroids)
  {
    seq(m.maxCentroids, i requires 0 <= i => Neighbours(m, minP, i, m.maxCentroids))
  }

  /** The labels after every round, from each node as its own label. */
  ghost predicate IsHistory(m: TransitionModel, minP: real, history: seq<seq<nat>>)
    requires m.Valid()
  {
    && history != [] && history[0] == seq(m.maxCentroids, i => i)
    && forall t | 0 <= t < |history| - 1 :: IsRound(m, minP, history[t], history[t + 1])
  }

  /** Two nodes that have only each other as neighbours. */
  predicate IsPair(m: TransitionModel, minP: real, i: nat, j: nat)
    requires m.Valid()
  {
    && Neighbours(m, minP, i, m.maxCentroids) == [j] && Neighbours(m, minP, j, m.maxCentroids) == [i]
    && i < m.maxCentroids && j < m.maxCentroids && i != j
  }

  lemma SoleNeighbour(labels: seq<nat>, j: nat, best: nat)
    requires j < |labels| && IsMostFrequent([j], labels, best)
    ensures best == labels[j]
  {
  }

  /** An update of one of the two makes them agree, and others do not concern them. */
  lemma PairUpdated(m: TransitionModel, minP: real, before: seq<nat>, after: seq<nat>, node: nat, i: nat, j: nat)
    requires m.Valid() && |before| == m.maxCentroids && IsPair(m, minP, i, j)
    requires IsUpdate(m, minP, before, after, node)
    ensures |after| == |before| && (node == i || node == j || before[i] == before[j] ==> after[i] == after[j])
  {
    var neighbours := Neighbours(m, minP, node, m.maxCentroids);
    if neighbours != [] {
      NeighboursBelow(m, minP, node);
      var best: nat :| IsMostFrequent(neighbours, before, best) && IsRelabelled(before, after, node, best);
      if node == i { SoleNeighbour(before, j, best); }
      if node == j { SoleNeighbour(before, i, best); }
    }
  }

  lemma {:induction false} PairTraced(m: TransitionModel, minP: real, trace: seq<seq<nat>>, order: seq<nat>,
                                      i: nat, j: nat, n: nat)
    requires m.Valid() && IsPair(m, minP, i, j) && IsTrace(m, minP, trace, order) && n <= |order|
    ensures i in order[..n] ==> trace[n][i] == trace[n][j]
  {
    if n > 0 {
      PairTraced(m, minP, trace, order, i, j, n - 1);
      assert order[..n] == order[..n - 1] + [order[n - 1]];
      PairUpdated(m, minP, trace[n - 1], trace[n], order[n - 1], i, j);
    }
  }

  /** After every round such a pair agrees. */
  lemma PairsAgree(m: TransitionModel, minP: real, before: seq<nat>, after: seq<nat>, i: nat, j: nat)
    requires m.Valid() && IsPair(m, minP, i, j) && IsRound(m, minP, before, after)
    ensures |after| == m.maxCentroids && after[i] == after[j]
  {
    var trace :| IsRoundTrace(m, minP, before, after, trace);
    var order := DegreeOrder(Adjacency(m, minP), 0);
    DegreeOrderCovers(Adjacency(m, minP), 0);
    assert order[..|order|] == order && i in order;
    PairTraced(m, minP, trace, order, i, j, |order|);
  }

  /** One node takes over the most frequent label of its neighbours; it reports whether that was a change. */
  method UpdateLabel(m: TransitionModel, minP: real, neighbours: seq<nat>, labels: array<nat>, node: nat)
    returns (changed: bool)
    requires m.Valid() && node < labels.Length && LabelsInside(m, minP, labels[..])
    requires neighbours == Neighbours(m, minP, node, m.maxCentroids)
    modifies labels
    ensures LabelsInside(m, minP, labels[..])
    ensures IsUpdate(m, minP, old(labels[..]), labels[..], node)
    ensures !changed ==> labels[..] == old(labels[..]) && IsSettled(m, minP, labels[..], node)
    ensures changed ==> labels[..] != old(labels[..])
  {
    ghost var start := labels[..];
    changed := false;
    if neighbours == [] { return; }
    NeighboursBelow(m, minP, node);
    var best := BestLabel(neighbours, labels[..]);
    assert IsRelabelled(start, start[node := best], node, best);
    if labels[node] != best {
      ghost var before := labels[..];
      ghost var u :| 0 <= u < |neighbours| && before[neighbours[u]] == best;
      ConnectedThrough(m, minP, node, neighbours[u], best);
      labels[node] := best;
      changed := true;
      assert labels[..] == before[node := best];
    } else {
      assert start[node := best] == start;
    }
  }

  /**
    Label propagation, at most 20 rounds. The labels stay inside the components at every
    step, and when it stops early no node would change any more.
    */
  method PropagateLabels(m: TransitionModel, minP: real)
    returns (labels: array<nat>, rounds: nat, ghost history: seq<seq<nat>>)
    requires m.Valid()
    ensures fresh(labels) && LabelsInside(m, minP, labels[..])
    ensures IsHistory(m, minP, history) && |history| == rounds + 1 && history[rounds] == labels[..]
    ensures rounds <= 20 && (rounds < 20 ==> Stable(m, minP, labels[..]))
  {
    var k := m.maxCentroids;
    var adj := BuildAdjacency(m, minP);
    assert adj == Adjacency(m, minP);
    labels := new nat[k](i => i);
    forall i: nat | i < k ensures Connected(m, minP, i, labels[i]) { ConnectedToItself(m, minP, i); }
    var changed := true;
    rounds := 0;
    history := [labels[..]];
    assert history[0] == seq(k, i => i);
    while changed && rounds < MAX_ITERATIONS
      invariant rounds <= MAX_ITERATIONS && LabelsInside(m, minP, labels[..])
      invariant IsHistory(m, minP, history) && |history| == rounds + 1 && history[rounds] == labels[..]
      invariant !changed ==> Stable(m, minP, labels[..])
      decreases MAX_ITERATIONS - rounds
    {
      changed := PropagateOnce(m, minP, adj, labels);
      rounds := rounds + 1;
      history := history + [labels[..]];
    }
  }

  /** The first t nodes of a round are done; when none of them changed, all of them are settled. */
  ghost predicate IsUnderway(m: TransitionModel, minP: real, trace: seq<seq<nat>>, order: seq<nat>, t: nat,
                             changed: bool)
    requires m.Valid() && t <= |order|
  {
    && |trace| == t + 1 && IsTrace(m, minP, trace, order[..t])
    && LabelsInside(m, minP, trace[t]) && Below(order, m.maxCentroids)
    && (!changed ==> forall u | 0 <= u < t :: IsSettled(m, minP, trace[t], order[u]))
  }

  lemma RoundContinues(m: TransitionModel, minP: real, trace: seq<seq<nat>>, order: seq<nat>, t: nat,
                       changed: bool, after: seq<nat>, update: bool)
    requires m.Valid() && t < |order| && IsUnderway(m, minP, trace, order, t, changed)
    requires LabelsInside(m, minP, after) && IsUpdate(m, minP, trace[t], after, order[t])
    requires !update ==> after == trace[t] && IsSettled(m, minP, after, order[t])
    ensures IsUnderway(m, minP, trace + [after], order, t + 1, changed || update)
  {
    var longer := trace + [after];
    assert longer[..t + 1] == trace;
    TraceExtended(m, minP, longer, order, t);
  }

  /** One round; it reports whether it changed a label. */
  method PropagateOnce(m: TransitionModel, minP: real, adj: seq<seq<nat>>, labels: array<nat>) returns (changed: bool)
    requires m.Valid() && LabelsInside(m, minP, labels[..]) && adj == Adjacency(m, minP)
    modifies labels
    ensures LabelsInside(m, minP, labels[..]) && IsRound(m, minP, old(labels[..]), labels[..])
    ensures !changed ==> Stable(m, minP, labels[..])
  {
    changed := false;
    var order := DegreeOrder(adj, 0);
    DegreeOrderCovers(adj, 0);
    ghost var trace := [labels[..]];
    for t := 0 to |order|
      invariant |trace| == t + 1 && trace[0] == old(labels[..]) && trace[t] == labels[..]
      invariant IsUnderway(m, minP, trace, order, t, changed)
    {
      ghost var before := trace;
      var update := UpdateLabel(m, minP, adj[order[t]], labels, order[t]);
      RoundContinues(m, minP, trace, order, t, changed, labels[..], update);
      trace := trace + [labels[..]];
      changed := changed || update;
    }
    RoundEnds(m, minP, trace, order, changed);
  }

  lemma RoundEnds(m: TransitionModel, minP: real, trace: seq<seq<nat>>, order: seq<nat>, changed: bool)
    requires m.Valid() && order == DegreeOrder(Adjacency(m, minP), 0)
    requires IsUnderway(m, minP, trace, order, |order|, changed)
    ensures IsRound(m, minP, trace[0], trace[|order|])
    ensures !changed ==> Stable(m, minP, trace[|order|])
  {
    DegreeOrderCovers(Adjacency(m, minP), 0);
    assert order[..|order|] == order;
    assert IsRoundTrace(m, minP, trace[0], trace[|order|], trace);
    if !changed { AllSettled(m, minP, trace[|order|], order); }
  }

  lemma TraceExtended(m: TransitionModel, minP: real, trace: seq<seq<nat>>, order: seq<nat>, t: nat)
    requires m.Valid() && t < |order| && |trace| == t + 2 && IsTrace(m, minP, trace[..t + 1], order[..t])
    requires |trace[t + 1]| == m.maxCentroids && IsUpdate(m, minP, trace[t], trace[t + 1], order[t])
    ensures IsTrace(m, minP, trace, order[..t + 1])
  {
    forall u | 0 <= u < t + 1 ensures IsUpdate(m, minP, trace[u], trace[u + 1], order[..t + 1][u]) {
      if u < t { assert IsUpdate(m, minP, trace[..t + 1][u], trace[..t + 1][u + 1], order[..t][u]); }
    }
    forall u | 0 <= u < |trace| ensures |trace[u]| == m.maxCentroids {
      if u <= t { assert trace[..t + 1][u] == trace[u]; }
    }
  }

  lemma AllSettled(m: TransitionModel, minP: real, labels: seq<nat>, order: seq<nat>)
    requires m.Valid() && |labels| == m.maxCentroids && Below(order, |labels|)
    requires forall x: nat | x < |labels| :: x in order
    requires forall u | 0 <= u < |order| :: IsSettled(m, minP, labels, order[u])
    ensures Stable(m, minP, labels)
  {
    forall i: nat | i < |labels| ensures IsSettled(m, minP, labels, i) {
      assert i in order;
      var u :| 0 <= u < |order| && order[u] == i;
      assert IsSettled(m, minP, labels, order[u]);
    }
  }

  // ----- regimes -----

  /** The observed nodes below n with label l, in ascending order. */
  function GroupOf(m: TransitionModel, labels: seq<nat>, l: nat, n: nat): seq<nat>
    requires m.Valid() && n <= |labels| == m.maxCentroids
  {
    if n == 0 then []
    else GroupOf(m, labels, l, n - 1) + if labels[n - 1] == l && m.Observed(n - 1) then [n - 1] else []
  }

  lemma {:induction false} GroupMembers(m: TransitionModel, labels: seq<nat>, l: nat, n: nat)
    requires m.Valid() && n <= |labels| == m.maxCentroids
    ensures StrictlyAscending(GroupOf(m, labels, l, n))
    ensures forall x :: x in GroupOf(m, labels, l, n) <==> 0 <= x < n && labels[x] == l && m.Observed(x)
  {
    if n > 0 {
      GroupMembers(m, labels, l, n - 1);
      var rest := GroupOf(m, labels, l, n - 1);
      assert forall t | 0 <= t < |rest| :: rest[t] in rest;
    }
  }

  method GroupByLabel(m: TransitionModel, labels: array<nat>) returns (groups: map<nat, seq<nat>>)
    requires m.Valid() && labels.Length == m.maxCentroids
    ensures forall l :: l in groups ==> groups[l] == GroupOf(m, labels[..], l, m.maxCentroids)
    ensures forall l :: l !in groups ==> GroupOf(m, labels[..], l, m.maxCentroids) == []
  {
    groups := map[];
    ghost var ls := labels[..];
    for node := 0 to labels.Length
      invariant forall l :: l in groups ==> groups[l] == GroupOf(m, ls, l, node)
      invariant forall l :: l !in groups ==> GroupOf(m, ls, l, node) == []
    {
      assert labels[node] == ls[node];
      if m.rowSums[node] >= MIN_TRANSITIONS {
        var l := labels[node];
        groups := groups[l := (if l in groups then groups[l] else []) + [node]];
      }
    }
  }

  /** The mutual probabilities of x with the first n elements of s other than itself, added up. */
  function RowMutual(m: TransitionModel, s: seq<nat>, x: nat, n: nat): real
    requires m.Valid() && n <= |s|
  {
    if n == 0 then 0.0
    else RowMutual(m, s, x, n - 1) + if x != s[n - 1] then m.Mutual(x, s[n - 1]) else 0.0
  }

  function RowPairs(s: seq<nat>, x: nat, n: nat): nat
    requires n <= |s|
  {
    if n == 0 then 0 else RowPairs(s, x, n - 1) + if x != s[n - 1] then 1 else 0
  }

  function TotalMutual(m: TransitionModel, s: seq<nat>, n: nat): real
    requires m.Valid() && n <= |s|
  {
    if n == 0 then 0.0 else TotalMutual(m, s, n - 1) + RowMutual(m, s, s[n - 1], |s|)
  }

  function PairCount(s: seq<nat>, n: nat): nat
    requires n <= |s|
  {
    if n == 0 then 0 else PairCount(s, n - 1) + RowPairs(s, s[n - 1], |s|)
  }

  /** The mean mutual probability over the ordered pairs of different members. */
  function MeanMutual(m: TransitionModel, s: seq<nat>): real
    requires m.Valid()
  {
    var pairs := PairCount(s, |s|);
    if pairs > 0 then TotalMutual(m, s, |s|) / pairs as real else 0.0
  }

  method Cohesion(m: TransitionModel, members: seq<nat>) returns (cohesion: real, pairs: nat)
    requires m.Valid()
    ensures cohesion == MeanMutual(m, members) && pairs == PairCount(members, |members|)
  {
    var total := 0.0;
    pairs := 0;
    for a := 0 to |members|
      invariant total == TotalMutual(m, members, a) && pairs == PairCount(members, a)
    {
      for b := 0 to |members|
        invariant total == TotalMutual(m, members, a) + RowMutual(m, members, members[a], b)
        invariant pairs == PairCount(members, a) + RowPairs(members, members[a], b)
      {
        if members[a] != members[b] {
          total := total + m.Mutual(members[a], members[b]);
          pairs := pairs + 1;
        }
      }
    }
    cohesion := if pairs > 0 then total / pairs as real else 0.0;
  }

  lemma {:induction false} DistinctRowPairs(s: seq<nat>, a: nat, n: nat)
    requires Distinct(s) && a < |s| && n <= |s|
    ensures RowPairs(s, s[a], n) == if a < n then n - 1 else n
  {
    if n > 0 { DistinctRowPairs(s, a, n - 1); }
  }

  /** Distinct members form n * (n - 1) ordered pairs. */
  lemma {:induction false} DistinctPairCount(s: seq<nat>, n: nat)
    requires Distinct(s) && n <= |s|
    ensures PairCount(s, n) == n * (|s| - 1)
  {
    if n > 0 {
      DistinctPairCount(s, n - 1);
      DistinctRowPairs(s, n - 1, |s|);
      NextRow(n - 1, |s|);
    }
  }

  lemma NextRow(a: int, n: int)
    ensures a * (n - 1) + (n - 1) == (a + 1) * (n - 1)
  {
  }

  lemma MeanOfOrderedPair(m: TransitionModel, i: nat, j: nat)
    requires m.Valid() && i != j
    ensures MeanMutual(m, [i, j]) == m.Mutual(i, j)
  {
    var s := [i, j];
    assert RowMutual(m, s, i, 0) == RowMutual(m, s, j, 0) == TotalMutual(m, s, 0) == 0.0;
    assert RowMutual(m, s, i, 1) == 0.0 && RowMutual(m, s, j, 1) == m.Mutual(j, i);
    assert RowMutual(m, s, i, 2) == m.Mutual(i, j) && RowMutual(m, s, j, 2) == m.Mutual(j, i);
    assert TotalMutual(m, s, 1) == m.Mutual(i, j) && TotalMutual(m, s, 2) == m.Mutual(i, j) + m.Mutual(j, i);
    MutualIsMean(m, i, j);
    DistinctPairCount(s, 2);
  }

  /** Mutual probabilities of different members lie between lo and hi. */
  ghost predicate MutualsWithin(m: TransitionModel, s: seq<nat>, lo: real, hi: real)
    requires m.Valid()
  {
    forall a, b | 0 <= a < |s| && 0 <= b < |s| && s[a] != s[b] :: lo <= m.Mutual(s[a], s[b]) <= hi
  }

  lemma CountsScale(p: nat, q: nat, x: real)
    ensures Times((p + q) as real, x) == Times(p as real, x) + Times(q as real, x)
    ensures Times(0.0, x) == 0.0 && Times(1.0, x) == x
  {
  }

  lemma {:induction false} RowWithin(m: TransitionModel, s: seq<nat>, lo: real, hi: real, a: nat, n: nat)
    requires m.Valid() && MutualsWithin(m, s, lo, hi) && a < |s| && n <= |s|
    ensures var k := RowPairs(s, s[a], n) as real; Times(k, lo) <= RowMutual(m, s, s[a], n) <= Times(k, hi)
  {
    hide Times;
    var k := if n == 0 then 0 else RowPairs(s, s[a], n - 1);
    CountsScale(k, 1, lo);
    CountsScale(k, 1, hi);
    if n > 0 {
      RowWithin(m, s, lo, hi, a, n - 1);
      if s[a] != s[n - 1] { assert lo <= m.Mutual(s[a], s[n - 1]) <= hi; }
    }
  }

  lemma {:induction false} TotalWithin(m: TransitionModel, s: seq<nat>, lo: real, hi: real, n: nat)
    requires m.Valid() && MutualsWithin(m, s, lo, hi) && n <= |s|
    ensures var k := PairCount(s, n) as real; Times(k, lo) <= TotalMutual(m, s, n) <= Times(k, hi)
  {
    hide Times;
    if n > 0 {
      TotalWithin(m, s, lo, hi, n - 1);
      RowWithin(m, s, lo, hi, n - 1, |s|);
      CountsScale(PairCount(s, n - 1), RowPairs(s, s[n - 1], |s|), lo);
      CountsScale(PairCount(s, n - 1), RowPairs(s, s[n - 1], |s|), hi);
    } else {
      CountsScale(0, 0, lo);
      CountsScale(0, 0, hi);
    }
  }

  /** The cohesion is a mean: it lies between bounds of the mutual probabilities. */
  lemma MeanWithin(m: TransitionModel, s: seq<nat>, lo: real, hi: real)
    requires m.Valid() && MutualsWithin(m, s, lo, hi) && PairCount(s, |s|) > 0
    ensures lo <= MeanMutual(m, s) <= hi
  {
    TotalWithin(m, s, lo, hi, |s|);
    QuotientWithin(TotalMutual(m, s, |s|), PairCount(s, |s|) as real, lo, hi);
  }

  lemma QuotientWithin(t: real, n: real, lo: real, hi: real)
    requires n > 0.0 && Times(n, lo) <= t <= Times(n, hi)
    ensures lo <= t / n <= hi
  {
    var q := t / n;
    assert q * n == t;
    assert (q - lo) * n >= 0.0 && (hi - q) * n >= 0.0;
  }

  /** What a reported regime is. */
  ghost predicate IsRegime(m: TransitionModel, minP: real, minSize: nat, c: Community)
    requires m.Valid()
  {
    && c.kind == BidirectionalRegime
    && StrictlyAscending(c.members)
    && |c.members| >= minSize
    && (forall x | x in c.members :: x < m.maxCentroids && m.rowSums[x] >= 5)
    && (forall x, y | x in c.members && y in c.members :: Connected(m, minP, x, y))
    && c.cohesion == MeanMutual(m, c.members) >= minP
  }

  ghost predicate PairwiseDisjoint(cs: seq<Community>) {
    forall a, b | 0 <= a < b < |cs| :: forall x | x in cs[a].members :: x !in cs[b].members
  }

  lemma GroupConnected(m: TransitionModel, minP: real, labels: seq<nat>, l: nat)
    requires m.Valid() && LabelsInside(m, minP, labels)
    ensures forall x, y | x in GroupOf(m, labels, l, |labels|) && y in GroupOf(m, labels, l, |labels|) ::
              Connected(m, minP, x, y)
  {
    var g := GroupOf(m, labels, l, |labels|);
    GroupMembers(m, labels, l, |labels|);
    forall x, y | x in g && y in g ensures Connected(m, minP, x, y) {
      ConnectedByThird(m, minP, x, y, l);
    }
  }

  function Sorted(s: seq<nat>): (r: seq<nat>) {
    SortPermutes(s);
    var r := SortInts(s);
    assert forall i | 0 <= i < |r| :: r[i] in r;
    r
  }

  lemma {:induction false} SortedAlready(s: seq<nat>)
    requires StrictlyAscending(s)
    ensures Sorted(s) == s
  {
    AscendingFixed(s);
  }

  lemma GroupIsRegime(m: TransitionModel, minP: real, minSize: nat, labels: seq<nat>, l: nat, c: Community)
    requires m.Valid() && LabelsInside(m, minP, labels)
    requires c.kind == BidirectionalRegime && c.members == GroupOf(m, labels, l, |labels|)
    requires |c.members| >= minSize && c.cohesion == MeanMutual(m, c.members) >= minP
    ensures IsRegime(m, minP, minSize, c)
  {
    GroupMembers(m, labels, l, |labels|);
    GroupConnected(m, minP, labels, l);
  }

  ghost predicate IsSomeGroup(m: TransitionModel, labels: seq<nat>, members: seq<nat>)
    requires m.Valid() && |labels| == m.maxCentroids
  {
    exists l: nat :: members == GroupOf(m, labels, l, |labels|)
  }

  ghost predicate IsReported(cs: seq<Community>, members: seq<nat>) {
    exists a | 0 <= a < |cs| :: cs[a].members == members
  }

  /** The communities are label groups, and every label group that qualifies is among them. */
  ghost predicate ReportsGroups(m: TransitionModel, minP: real, minSize: nat, labels: seq<nat>, cs: seq<Community>)
    requires m.Valid() && |labels| == m.maxCentroids
  {
    && (forall l: nat | Qualifies(m, minP, minSize, GroupOf(m, labels, l, |labels|)) ::
          IsReported(cs, GroupOf(m, labels, l, |labels|)))
    && forall a | 0 <= a < |cs| :: IsSomeGroup(m, labels, cs[a].members)
  }

  /** Large and cohesive enough to be reported. */
  predicate Qualifies(m: TransitionModel, minP: real, minSize: nat, members: seq<nat>)
    requires m.Valid()
  {
    members != [] && |members| >= minSize && MeanMutual(m, members) >= minP
  }

  /** The communities are the groups of distinct labels. */
  ghost predicate Tagged(m: TransitionModel, labels: seq<nat>, tags: seq<nat>, cs: seq<Community>)
    requires m.Valid() && |labels| == m.maxCentroids
  {
    && |tags| == |cs| && Distinct(tags)
    && forall a | 0 <= a < |tags| :: cs[a].members == GroupOf(m, labels, tags[a], |labels|)
  }

  lemma TaggedExtended(m: TransitionModel, labels: seq<nat>, tags: seq<nat>, cs: seq<Community>, l: nat, c: Community)
    requires m.Valid() && |labels| == m.maxCentroids && Tagged(m, labels, tags, cs)
    requires c.members == GroupOf(m, labels, l, |labels|) && forall a | 0 <= a < |tags| :: tags[a] != l
    ensures Tagged(m, labels, tags + [l], cs + [c])
  {
  }

  lemma TaggedDisjoint(m: TransitionModel, labels: seq<nat>, tags: seq<nat>, cs: seq<Community>)
    requires m.Valid() && |labels| == m.maxCentroids && Tagged(m, labels, tags, cs)
    ensures PairwiseDisjoint(cs)
  {
    forall a, b, x | 0 <= a < b < |cs| && x in cs[a].members ensures x !in cs[b].members {
      GroupMembers(m, labels, tags[a], |labels|);
      GroupMembers(m, labels, tags[b], |labels|);
    }
  }

  /**
    Every regime reported lies inside one connected component of the thresholded graph,
    has the required size and cohesion, and shares no node with another.
    */
  method DetectRegimes(m: TransitionModel, minP: real, minSize: nat)
    returns (communities: seq<Community>, ghost labels: seq<nat>, ghost rounds: nat, ghost history: seq<seq<nat>>)
    requires m.Valid()
    ensures IsHistory(m, minP, history) && |history| == rounds + 1 && history[rounds] == labels
    ensures LabelsInside(m, minP, labels)
    ensures rounds <= 20 && (rounds < 20 ==> Stable(m, minP, labels))
    ensures ReportsGroups(m, minP, minSize, labels, communities)
    ensures forall a | 0 <= a < |communities| :: IsRegime(m, minP, minSize, communities[a])
    ensures PairwiseDisjoint(communities)
  {
    hide GroupOf, MeanMutual, PairCount, IsRegime, IsHistory, Stable, ReportsGroups, PairwiseDisjoint, LabelsInside;
    hide Sorted, StrictlyAscending;
    var labelArray, roundCount, states := PropagateLabels(m, minP);
    var groups := GroupByLabel(m, labelArray);
    labels, rounds, history := labelArray[..], roundCount, states;
    ghost var tags: seq<nat> := [];
    communities := [];
    var todo := groups.Keys;
    while todo != {}
      invariant todo <= groups.Keys
      invariant Tagged(m, labels, tags, communities)
      invariant forall a | 0 <= a < |tags| :: tags[a] !in todo
      invariant forall a | 0 <= a < |communities| :: IsRegime(m, minP, minSize, communities[a])
      invariant forall l | l in groups.Keys - todo && Qualifies(m, minP, minSize, groups[l]) :: l in tags
      decreases |todo|
    {
      var l :| l in todo;
      todo := todo - {l};
      var members := groups[l];
      if |members| >= minSize {
        GroupMembers(m, labels, l, |labels|);
        var cohesion, _ := Cohesion(m, members);
        if cohesion >= minP {
          SortedAlready(members);
          var regime := Community(BidirectionalRegime, Sorted(members), cohesion);
          GroupIsRegime(m, minP, minSize, labels, l, regime);
          TaggedExtended(m, labels, tags, communities, l, regime);
          communities := communities + [regime];
          tags := tags + [l];
        }
      }
    }
    TaggedDisjoint(m, labels, tags, communities);
    TagsReport(m, minP, minSize, labels, tags, communities, groups);
  }

  lemma TagsReport(m: TransitionModel, minP: real, minSize: nat, labels: seq<nat>, tags: seq<nat>,
                   cs: seq<Community>, groups: map<nat, seq<nat>>)
    requires m.Valid() && |labels| == m.maxCentroids && Tagged(m, labels, tags, cs)
    requires forall l: nat :: l in groups ==> groups[l] == GroupOf(m, labels, l, |labels|)
    requires forall l: nat :: l !in groups ==> GroupOf(m, labels, l, |labels|) == []
    requires forall l | l in groups && Qualifies(m, minP, minSize, groups[l]) :: l in tags
    ensures ReportsGroups(m, minP, minSize, labels, cs)
  {
    forall l: nat | Qualifies(m, minP, minSize, GroupOf(m, labels, l, |labels|))
      ensures IsReported(cs, GroupOf(m, labels, l, |labels|))
    {
      assert l in groups && l in tags;
      var a :| 0 <= a < |tags| && tags[a] == l;
      assert cs[a].members == GroupOf(m, labels, tags[a], |labels|);
    }
    forall a | 0 <= a < |cs| ensures IsSomeGroup(m, labels, cs[a].members) {
      assert cs[a].members == GroupOf(m, labels, tags[a], |labels|);
    }
  }

  // ----- chains -----

  predicate Directed(m: TransitionModel, minP: real, i: nat, j: nat)
    requires m.Valid()
  {
    j < m.maxCentroids && m.Observed(i) && i != j && m.Probability(i, j) >= minP
  }

  /** The most probable edge out of i among the targets below n; the last one among equals. */
  function BestEdge(m: TransitionModel, minP: real, i: nat, n: nat): (r: Option<nat>)
    requires m.Valid()
    ensures r.Some? ==> r.value < n && Directed(m, minP, i, r.value)
    ensures forall j | 0 <= j < n && Directed(m, minP, i, j) ::
              && r.Some? && m.Probability(i, j) <= m.Probability(i, r.value)
              && (m.Probability(i, j) == m.Probability(i, r.value) ==> j <= r.value)
  {
    if n == 0 then None
    else
      var best := BestEdge(m, minP, i, n - 1);
      if Directed(m, minP, i, n - 1) && (best.None? || m.Probability(i, best.value) <= m.Probability(i, n - 1))
      then Some(n - 1) else best
  }

  /** The next state of a chain: the best edge, if its target has been observed enough. */
  function NextState(m: TransitionModel, minP: real, i: nat): (r: Option<nat>)
    requires m.Valid()
    ensures r.Some? ==> Directed(m, minP, i, r.value) && m.Observed(r.value)
  {
    var best := BestEdge(m, minP, i, m.maxCentroids);
    if best.Some? && m.Observed(best.value) then best else None
  }

  ghost function Unvisited(m: TransitionModel, visited: set<nat>): set<nat> {
    set x: nat {:trigger x in visited} | x < m.maxCentroids && x !in visited
  }

  /** The path from a node that follows best edges until it would repeat a node or cannot go on. */
  function ChainFrom(m: TransitionModel, minP: real, current: nat, visited: set<nat>): seq<nat>
    requires m.Valid() && current < m.maxCentroids && current !in visited
    decreases Unvisited(m, visited)
  {
    var next := NextState(m, minP, current);
    assert current in Unvisited(m, visited);
    if next.None? || next.value in visited + {current} then [current]
    else [current] + ChainFrom(m, minP, next.value, visited + {current})
  }

  lemma {:induction false} ChainFacts(m: TransitionModel, minP: real, current: nat, visited: set<nat>)
    requires m.Valid() && m.Observed(current) && current !in visited
    ensures var c := ChainFrom(m, minP, current, visited);
            && c != [] && c[0] == current
            && Distinct(c)
            && (forall x | x in c :: x !in visited && m.Observed(x))
            && forall t | 0 <= t < |c| - 1 :: NextState(m, minP, c[t]) == Some(c[t + 1])
    decreases Unvisited(m, visited)
  {
    var next := NextState(m, minP, current);
    assert current in Unvisited(m, visited);
    if next.Some? && next.value !in visited + {current} {
      ChainFacts(m, minP, next.value, visited + {current});
      var tail := ChainFrom(m, minP, next.value, visited + {current});
      assert current !in tail;
      forall t | 0 <= t < |tail| ensures ([current] + tail)[t + 1] == tail[t] && tail[t] in tail {}
      forall t | 0 <= t < |tail|
        ensures NextState(m, minP, ([current] + tail)[t]) == Some(([current] + tail)[t + 1])
      {
        if t > 0 { assert NextState(m, minP, tail[t - 1]) == Some(tail[t]); }
      }
    }
  }

  /** A trace goes on as far as it can: at its end there is no continuation, or only one that repeats a node. */
  lemma {:induction false} ChainMaximal(m: TransitionModel, minP: real, current: nat, visited: set<nat>)
    requires m.Valid() && current < m.maxCentroids && current !in visited
    ensures var c := ChainFrom(m, minP, current, visited);
            && c != []
            && var next := NextState(m, minP, c[|c| - 1]);
               next.None? || next.value in visited || next.value in c
    decreases Unvisited(m, visited)
  {
    var next := NextState(m, minP, current);
    assert current in Unvisited(m, visited);
    if next.Some? && next.value !in visited + {current} {
      ChainMaximal(m, minP, next.value, visited + {current});
      var tail := ChainFrom(m, minP, next.value, visited + {current});
      assert ([current] + tail)[|tail|] == tail[|tail| - 1];
    }
  }

  /** One trace, step by step. */
  method TraceChain(m: TransitionModel, minP: real, start: nat) returns (chain: seq<nat>)
    requires m.Valid() && start < m.maxCentroids
    ensures chain == ChainFrom(m, minP, start, {})
  {
    chain := [];
    var current: nat := start;
    var visited: set<nat> := {};
    while current !in visited
      invariant current < m.maxCentroids
      invariant ChainFrom(m, minP, start, {}) ==
                chain + if current in visited then [] else ChainFrom(m, minP, current, visited)
      decreases Unvisited(m, visited)
    {
      assert current in Unvisited(m, visited);
      ChainStep(m, minP, current, visited);
      visited := visited + {current};
      chain := chain + [current];
      var next := NextState(m, minP, current);
      if next.None? { return; }
      current := next.value;
    }
  }

  lemma ChainStep(m: TransitionModel, minP: real, current: nat, visited: set<nat>)
    requires m.Valid() && current < m.maxCentroids && current !in visited
    ensures var next := NextState(m, minP, current);
            ChainFrom(m, minP, current, visited) ==
            if next.None? || next.value in visited + {current} then [current]
            else [current] + ChainFrom(m, minP, next.value, visited + {current})
  {
  }

  function StepSum(m: TransitionModel, c: seq<nat>, n: nat): real
    requires m.Valid() && n < |c|
  {
    if n == 0 then 0.0 else StepSum(m, c, n - 1) + m.Probability(c[n - 1], c[n])
  }

  function MeanStep(m: TransitionModel, c: seq<nat>): real
    requires m.Valid() && c != []
  {
    if |c| == 1 then 0.0 else StepSum(m, c, |c| - 1) / (|c| - 1) as real
  }

  method ChainCohesion(m: TransitionModel, c: seq<nat>) returns (cohesion: real)
    requires m.Valid() && c != []
    ensures cohesion == MeanStep(m, c)
  {
    var sum := 0.0;
    for t := 0 to |c| - 1
      invariant sum == StepSum(m, c, t)
    {
      sum := sum + m.Probability(c[t], c[t + 1]);
    }
    cohesion := if |c| > 1 then sum / (|c| - 1) as real else 0.0;
  }

  lemma {:induction false} StepSumBound(m: TransitionModel, minP: real, c: seq<nat>, n: nat)
    requires m.Valid() && n < |c|
    requires forall t | 0 <= t < |c| - 1 :: m.Probability(c[t], c[t + 1]) >= minP
    ensures StepSum(m, c, n) >= n as real * minP
  {
    if n > 0 {
      StepSumBound(m, minP, c, n - 1);
      OneMore(n - 1, minP);
    }
  }

  lemma OneMore(n: nat, p: real)
    ensures (n + 1) as real * p == n as real * p + p
  {
  }

  lemma QuotientBound(s: real, n: real, p: real)
    requires n > 0.0 && s >= n * p
    ensures s / n >= p
  {
    assert (s / n) * n == s;
  }

  lemma MeanBound(m: TransitionModel, minP: real, c: seq<nat>)
    requires m.Valid() && |c| >= 2
    requires forall t | 0 <= t < |c| - 1 :: m.Probability(c[t], c[t + 1]) >= minP
    ensures MeanStep(m, c) >= minP
  {
    StepSumBound(m, minP, c, |c| - 1);
    QuotientBound(StepSum(m, c, |c| - 1), (|c| - 1) as real, minP);
  }

  /** The mean step probability of a traced chain of two or more nodes reaches the threshold. */
  lemma ChainMean(m: TransitionModel, minP: real, start: nat)
    requires m.Valid() && m.Observed(start)
    ensures var c := ChainFrom(m, minP, start, {});
            c != [] && (|c| >= 2 ==> MeanStep(m, c) >= minP)
  {
    var c := ChainFrom(m, minP, start, {});
    ChainFacts(m, minP, start, {});
    forall t | 0 <= t < |c| - 1 ensures m.Probability(c[t], c[t + 1]) >= minP {
      assert NextState(m, minP, c[t]) == Some(c[t + 1]);
      assert Directed(m, minP, c[t], c[t + 1]);
    }
    if |c| >= 2 { MeanBound(m, minP, c); }
  }

  /** The last node has no continuation outside the chain. */
  predicate EndsAtLast(m: TransitionModel, minP: real, c: seq<nat>)
    requires m.Valid() && c != []
  {
    var next := NextState(m, minP, c[|c| - 1]);
    next.None? || next.value in c
  }

  /** What a reported chain is: distinct nodes, each the best continuation of the one before. */
  ghost predicate IsChain(m: TransitionModel, minP: real, minSize: nat, c: Community)
    requires m.Valid()
  {
    && c.kind == UnidirectionalChain
    && c.members != [] && |c.members| >= minSize
    && Distinct(c.members)
    && (forall x | x in c.members :: x < m.maxCentroids && m.rowSums[x] >= 5)
    && (forall t | 0 <= t < |c.members| - 1 :: NextState(m, minP, c.members[t]) == Some(c.members[t + 1]))
    && EndsAtLast(m, minP, c.members)
    && c.cohesion == MeanStep(m, c.members)
    && (|c.members| >= 2 ==> c.cohesion >= minP)
  }

  predicate StartsChain(m: TransitionModel, minP: real, start: nat)
    requires m.Valid()
  {
    start < m.maxCentroids && BestEdge(m, minP, start, m.maxCentroids).Some?
  }

  /** The node is in a reported chain, or its own chain is too short. */
  ghost predicate Covered(m: TransitionModel, minP: real, minSize: nat, cs: seq<Community>, start: nat)
    requires m.Valid() && start < m.maxCentroids
  {
    |ChainFrom(m, minP, start, {})| < minSize || exists c | c in cs :: start in c.members
  }

  /** Chains are traced from ascending nodes, and never from one that an earlier chain contains. */
  ghost predicate StartsApart(cs: seq<Community>) {
    && (forall a | 0 <= a < |cs| :: cs[a].members != [])
    && forall a, b | 0 <= a < b < |cs| ::
         cs[a].members[0] < cs[b].members[0] && cs[b].members[0] !in cs[a].members
  }

  /** The nodes marked are those of the chains. */
  ghost predicate MarksMembers(marks: seq<bool>, cs: seq<Community>) {
    && (forall x | 0 <= x < |marks| && marks[x] :: exists c | c in cs :: x in c.members)
    && forall c, x | c in cs && x in c.members :: x < |marks| && marks[x]
  }

  method MarkVisited(visited: array<bool>, chain: seq<nat>)
    requires Below(chain, visited.Length)
    modifies visited
    ensures forall x | 0 <= x < visited.Length :: visited[x] == (old(visited[x]) || x in chain)
  {
    for t := 0 to |chain|
      invariant forall x | 0 <= x < visited.Length :: visited[x] == (old(visited[x]) || x in chain[..t])
    {
      visited[chain[t]] := true;
    }
  }

  lemma OneMoreChain(marks: seq<bool>, after: seq<bool>, cs: seq<Community>, c: Community, start: nat)
    requires StartsApart(cs) && MarksMembers(marks, cs) && (forall d | d in cs :: d.members[0] < start)
    requires c.members != [] && c.members[0] == start < |marks| && !marks[start]
    requires |after| == |marks| && Below(c.members, |marks|)
    requires forall x | 0 <= x < |marks| :: after[x] == (marks[x] || x in c.members)
    ensures StartsApart(cs + [c]) && MarksMembers(after, cs + [c])
  {
    forall x | 0 <= x < |after| && after[x] ensures exists d | d in cs + [c] :: x in d.members {
      if x in c.members {
        assert c in cs + [c];
      } else {
        var d :| d in cs && x in d.members;
        assert d in cs + [c];
      }
    }
  }

  method DetectChains(m: TransitionModel, minP: real, minSize: nat) returns (communities: seq<Community>)
    requires m.Valid()
    ensures forall c | c in communities :: IsChain(m, minP, minSize, c)
    ensures forall start: nat | StartsChain(m, minP, start) :: Covered(m, minP, minSize, communities, start)
    ensures StartsApart(communities)
  {
    communities := [];
    var visited := new bool[m.maxCentroids](_ => false);
    hide ChainFrom, IsChain, MarksMembers, StartsApart;
    NothingMarked(visited[..]);
    for start := 0 to m.maxCentroids
      invariant forall c | c in communities :: IsChain(m, minP, minSize, c)
      invariant StartsApart(communities) && MarksMembers(visited[..], communities)
      invariant forall c | c in communities :: c.members != [] && c.members[0] < start
      invariant forall s: nat | s < start && StartsChain(m, minP, s) :: Covered(m, minP, minSize, communities, s)
    {
      ghost var marks, before := visited[..], communities;
      if !visited[start] && m.rowSums[start] >= MIN_TRANSITIONS && BestEdge(m, minP, start, m.maxCentroids).Some? {
        var chain := TraceChain(m, minP, start);
        TracedChain(m, minP, minSize, start);
        if |chain| >= minSize {
          var cohesion := ChainCohesion(m, chain);
          var community := Community(UnidirectionalChain, chain, cohesion);
          communities := communities + [community];
          MarkVisited(visited, chain);
          OneMoreChain(marks, visited[..], before, community, start);
        }
      }
      StillCovered(m, minP, minSize, before, communities, start, marks);
    }
  }

  lemma NothingMarked(marks: seq<bool>)
    requires forall x | 0 <= x < |marks| :: !marks[x]
    ensures StartsApart([]) && MarksMembers(marks, [])
  {
  }

  /** A long enough trace is a chain. */
  lemma TracedChain(m: TransitionModel, minP: real, minSize: nat, start: nat)
    requires m.Valid() && m.Observed(start)
    ensures var c := ChainFrom(m, minP, start, {});
            && c != [] && c[0] == start && Below(c, m.maxCentroids)
            && (|c| >= minSize ==> IsChain(m, minP, minSize, Community(UnidirectionalChain, c, MeanStep(m, c))))
  {
    ChainFacts(m, minP, start, {});
    ChainMaximal(m, minP, start, {});
    ChainMean(m, minP, start);
    var c := ChainFrom(m, minP, start, {});
    hide ChainFrom, MeanStep, NextState;
    forall t | 0 <= t < |c| ensures c[t] < m.maxCentroids { assert c[t] in c; }
  }

  lemma StillCovered(m: TransitionModel, minP: real, minSize: nat, before: seq<Community>, after: seq<Community>,
                     start: nat, marks: seq<bool>)
    requires m.Valid() && start < m.maxCentroids == |marks| && MarksMembers(marks, before)
    requires forall s: nat | s < start && StartsChain(m, minP, s) :: Covered(m, minP, minSize, before, s)
    requires (forall c | c in before :: c in after)
    requires StartsChain(m, minP, start) && !marks[start] ==>
               |ChainFrom(m, minP, start, {})| < minSize || exists c | c in after :: start in c.members
    ensures forall s: nat | s < start + 1 && StartsChain(m, minP, s) :: Covered(m, minP, minSize, after, s)
  {
    hide ChainFrom, StartsChain;
    forall s: nat | s < start + 1 && StartsChain(m, minP, s) ensures Covered(m, minP, minSize, after, s) {
      if s < start || marks[s] {
        if |ChainFrom(m, minP, s, {})| >= minSize {
          if s < start { assert Covered(m, minP, minSize, before, s); }
          var c :| c in before && s in c.members;
          assert c in after && s in c.members;
        }
      }
    }
  }
}
