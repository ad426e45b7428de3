/** Evidence analysis: hypotheses are eliminated by the outcome with the most independent origins. */
module Evidence {
  import opened Wrappers
  import opened Ordering

  const MIN_DECISIVE_SCORE := 2000

  type Byte = b: nat | b < 256

  datatype FailureMode =
    | ClockDrift | IdentityConfusion | CopiedReport | StaleCache | SelectiveOmission | AdversarialFabrication

  datatype Record = Record(
    id: string,
    query: string,
    outcome: string,
    timestamp: nat,
    validUntil: Option<nat>,
    source: string,
    reliability: Byte,
    confidence: Byte,
    ancestry: seq<string>,
    correlationGroup: Option<string>,
    failureMode: Option<FailureMode>,
    causalPath: seq<string>)
  {
    predicate ValidAt(t: nat) {
      validUntil.None? || t <= validUntil.value
    }

    /** The group a record's source belongs to, else its first ancestor, else the source itself. */
    function Origin(): string {
      if correlationGroup.Some? then correlationGroup.value
      else if ancestry != [] then ancestry[0]
      else source
    }

    predicate Decisive(asOf: nat) {
      ValidAt(asOf) && reliability * confidence >= MIN_DECISIVE_SCORE
    }

    function Key(): (string, string, string) {
      (query, Origin(), outcome)
    }
  }

  datatype Hypothesis = Hypothesis(id: string, predictions: map<string, string>, causalPaths: map<string, seq<string>>)

  predicate Predicts(h: Hypothesis, query: string, outcome: string) {
    query in h.predictions && h.predictions[query] == outcome
  }

  /** `path_compatible`: the evidence follows the expected causal path, or has none when none is expected. */
  predicate PathCompatible(h: Hypothesis, query: string, r: Record) {
    if query in h.causalPaths then h.causalPaths[query] <= r.causalPath else r.causalPath == []
  }

  // ----- selecting records -----

  function LatestTime(evidence: seq<Record>): nat {
    if evidence == [] then 0
    else
      var n := |evidence| - 1;
      var before := LatestTime(evidence[..n]);
      if before < evidence[n].timestamp then evidence[n].timestamp else before
  }

  /** The keys of the decisive records. */
  function Seen(evidence: seq<Record>, asOf: nat): set<(string, string, string)> {
    if evidence == [] then {}
    else
      var n := |evidence| - 1;
      Seen(evidence[..n], asOf) + if evidence[n].Decisive(asOf) then {evidence[n].Key()} else {}
  }

  predicate IsFirst(evidence: seq<Record>, r: Record, asOf: nat) {
    r.Decisive(asOf) && r.Key() !in Seen(evidence, asOf)
  }

  /** The decisive records that are the first with their key and whose source did not fail. */
  function Kept(evidence: seq<Record>, asOf: nat): seq<Record> {
    if evidence == [] then []
    else
      var n := |evidence| - 1;
      Kept(evidence[..n], asOf)
      + if IsFirst(evidence[..n], evidence[n], asOf) && evidence[n].failureMode.None? then [evidence[n]] else []
  }

  function Duplicates(evidence: seq<Record>, asOf: nat): nat {
    if evidence == [] then 0
    else
      var n := |evidence| - 1;
      Duplicates(evidence[..n], asOf)
      + if evidence[n].Decisive(asOf) && evidence[n].Key() in Seen(evidence[..n], asOf) then 1 else 0
  }

  function Failures(evidence: seq<Record>): map<string, FailureMode> {
    if evidence == [] then map[]
    else
      var n := |evidence| - 1;
      var before := Failures(evidence[..n]);
      if evidence[n].failureMode.Some? then before[evidence[n].source := evidence[n].failureMode.value] else before
  }

  /** `reliable_records`. */
  method ReliableRecords(evidence: seq<Record>)
    returns (records: seq<Record>, failures: map<string, FailureMode>, duplicates: nat)
    ensures var asOf := LatestTime(evidence);
            && records == Kept(evidence, asOf)
            && failures == Failures(evidence)
            && duplicates == Duplicates(evidence, asOf)
  {
    var asOf := 0;
    for i := 0 to |evidence|
      invariant asOf == LatestTime(evidence[..i])
    {
      assert evidence[..i + 1][..i] == evidence[..i];
      if asOf < evidence[i].timestamp {
        asOf := evidence[i].timestamp;
      }
    }
    assert evidence[..|evidence|] == evidence;
    records, failures, duplicates := [], map[], 0;
    var seen := {};
    for i := 0 to |evidence|
      invariant records == Kept(evidence[..i], asOf) && seen == Seen(evidence[..i], asOf)
      invariant failures == Failures(evidence[..i]) && duplicates == Duplicates(evidence[..i], asOf)
    {
      assert evidence[..i + 1][..i] == evidence[..i];
      var r := evidence[i];
      if r.failureMode.Some? {
        failures := failures[r.source := r.failureMode.value];
      }
      if !r.ValidAt(asOf) || r.reliability * r.confidence < MIN_DECISIVE_SCORE {
        continue;
      }
      if r.Key() in seen {
        duplicates := duplicates + 1;
        continue;
      }
      seen := seen + {r.Key()};
      if r.failureMode.None? {
        records := records + [r];
      }
    }
  }

  /** More reliability, confidence or validity keeps a record decisive; an expired one is not, however reliable. */
  lemma DecisiveMonotone(r: Record, s: Record, asOf: nat)
    requires r.reliability <= s.reliability && r.confidence <= s.confidence
    requires s.validUntil.None? || (r.validUntil.Some? && r.validUntil.value <= s.validUntil.value)
    ensures r.Decisive(asOf) ==> s.Decisive(asOf)
    ensures r.validUntil.Some? && r.validUntil.value < asOf ==> !r.Decisive(asOf)
    ensures r.reliability * r.confidence < 2000 ==> !r.Decisive(asOf)
    ensures r.reliability * r.confidence == 2000 && r.validUntil == Some(asOf) ==> r.Decisive(asOf)
  {
    assert r.reliability * r.confidence <= s.reliability * r.confidence <= s.reliability * s.confidence;
  }

  /** The time of the analysis is that of the newest record. */
  lemma {:induction false} LatestIsNewest(evidence: seq<Record>)
    ensures forall i | 0 <= i < |evidence| :: evidence[i].timestamp <= LatestTime(evidence)
    ensures evidence != [] ==> exists i | 0 <= i < |evidence| :: evidence[i].timestamp == LatestTime(evidence)
  {
    if evidence != [] {
      var n := |evidence| - 1;
      LatestIsNewest(evidence[..n]);
      assert forall i | 0 <= i < n :: evidence[..n][i] == evidence[i];
      if LatestTime(evidence) != evidence[n].timestamp {
        assert LatestTime(evidence) == LatestTime(evidence[..n]);
        assert n > 0;
        var i :| 0 <= i < n && evidence[..n][i].timestamp == LatestTime(evidence[..n]);
        assert evidence[i].timestamp == LatestTime(evidence);
      }
    }
  }

  function DecisiveCount(evidence: seq<Record>, asOf: nat): nat {
    if evidence == [] then 0
    else DecisiveCount(evidence[..|evidence| - 1], asOf) + if evidence[|evidence| - 1].Decisive(asOf) then 1 else 0
  }

  /** Every decisive record either brings a new key or is a duplicate. */
  lemma {:induction false} DuplicatesExact(evidence: seq<Record>, asOf: nat)
    ensures Duplicates(evidence, asOf) + |Seen(evidence, asOf)| == DecisiveCount(evidence, asOf)
  {
    if evidence != [] {
      var n := |evidence| - 1;
      DuplicatesExact(evidence[..n], asOf);
      if evidence[n].Decisive(asOf) && evidence[n].Key() in Seen(evidence[..n], asOf) {
        assert Seen(evidence, asOf) == Seen(evidence[..n], asOf);
      }
    }
  }

  /** A source is reported as failed exactly when some record says so, decisive or not, and the last one counts. */
  lemma {:induction false} FailuresExact(evidence: seq<Record>, source: string)
    ensures source in Failures(evidence) <==>
            exists i | 0 <= i < |evidence| :: evidence[i].source == source && evidence[i].failureMode.Some?
    ensures forall i | 0 <= i < |evidence| && evidence[i].source == source && evidence[i].failureMode.Some?
                    && (forall j | i < j < |evidence| && evidence[j].source == source ::
                          evidence[j].failureMode.None?) ::
              source in Failures(evidence) && Failures(evidence)[source] == evidence[i].failureMode.value
  {
    if evidence != [] {
      var n := |evidence| - 1;
      var before := evidence[..n];
      FailuresExact(before, source);
      assert forall i | 0 <= i < n :: before[i] == evidence[i];
      if source in Failures(before) {
        var i :| 0 <= i < |before| && before[i].source == source && before[i].failureMode.Some?;
        assert evidence[i].source == source && evidence[i].failureMode.Some?;
      }
      if evidence[n].source == source && evidence[n].failureMode.Some? {
        assert evidence[n].source == source;
      }
    }
  }

  // ----- the winner of a query -----

  /** The records of one query, in order. */
  function Select(records: seq<Record>, query: string): (s: seq<Record>)
    ensures forall i | 0 <= i < |s| :: s[i].query == query
  {
    if records == [] then []
    else
      var n := |records| - 1;
      Select(records[..n], query) + if records[n].query == query then [records[n]] else []
  }

  /** The independent origins that report an outcome. */
  function Support(records: seq<Record>, outcome: string): set<string> {
    set i | 0 <= i < |records| && records[i].outcome == outcome :: records[i].Origin()
  }

  ghost predicate Reported(records: seq<Record>, outcome: string) {
    exists i | 0 <= i < |records| :: records[i].outcome == outcome
  }

  /** More independent origins than for any other reported outcome. */
  ghost predicate Wins(records: seq<Record>, outcome: string) {
    && Reported(records, outcome)
    && forall other :: Reported(records, other) && other != outcome ==>
         |Support(records, other)| < |Support(records, outcome)|
  }

  ghost function Winner(records: seq<Record>): (w: Option<string>)
    ensures w.Some? ==> Wins(records, w.value)
    ensures forall o :: Wins(records, o) ==> w == Some(o)
  {
    if exists o :: Wins(records, o) then
      var o :| Wins(records, o);
      Some(o)
    else None
  }

  ghost predicate IsSupport(support: map<string, set<string>>, records: seq<Record>) {
    && (forall o :: o in support <==> Reported(records, o))
    && forall o | o in support :: support[o] == Support(records, o)
  }

  /** The origins of each reported outcome. */
  method CountSupport(records: seq<Record>) returns (support: map<string, set<string>>)
    ensures IsSupport(support, records)
  {
    support := map[];
    for i := 0 to |records|
      invariant IsSupport(support, records[..i])
    {
      var o := records[i].outcome;
      OneMoreRecord(records, i);
      support := support[o := (if o in support then support[o] else {}) + {records[i].Origin()}];
    }
    assert records[..|records|] == records;
  }

  /** The only outcome whose support has the largest size, if there is only one. */
  method FindWinner(records: seq<Record>) returns (winner: Option<string>)
    ensures winner == Winner(records)
  {
    var support := CountSupport(records);
    var most, todo := 0, support.Keys;
    while todo != {}
      invariant todo <= support.Keys
      invariant forall o | o in support.Keys - todo :: |support[o]| <= most
      invariant most == 0 || exists o :: o in support && |support[o]| == most
      decreases |todo|
    {
      var o :| o in todo;
      todo := todo - {o};
      if |support[o]| > most { most := |support[o]|; }
    }
    var winners := set o | o in support && |support[o]| == most;
    WinnersDecide(records, support, most, winners);
    if |winners| == 1 {
      var o :| o in winners;
      winner := Some(o);
    } else {
      winner := None;
    }
  }

  lemma WinnersDecide(records: seq<Record>, support: map<string, set<string>>, most: nat, winners: set<string>)
    requires IsSupport(support, records)
    requires forall o | o in support :: |support[o]| <= most
    requires most == 0 || exists o :: o in support && |support[o]| == most
    requires winners == set o | o in support && |support[o]| == most
    ensures |winners| == 1 ==> forall o | o in winners :: Winner(records) == Some(o)
    ensures |winners| != 1 ==> Winner(records) == None
  {
    if |winners| == 1 {
      var o :| o in winners;
      Singleton(winners, o);
      forall p | Reported(records, p) && p != o ensures |Support(records, p)| < |Support(records, o)| {
        assert p in support && p !in winners;
      }
      assert Wins(records, o);
    } else {
      forall o ensures !Wins(records, o) {
        if Wins(records, o) {
          OnlyWinner(records, support, most, winners, o);
        }
      }
    }
  }

  lemma OnlyWinner(records: seq<Record>, support: map<string, set<string>>, most: nat, winners: set<string>, o: string)
    requires IsSupport(support, records) && Wins(records, o)
    requires forall p | p in support :: |support[p]| <= most
    requires most == 0 || exists p :: p in support && |support[p]| == most
    requires winners == set p | p in support && |support[p]| == most
    ensures winners == {o}
  {
    assert o in support;
    forall p | p in support && p != o ensures |support[p]| < |support[o]| {
      assert Reported(records, p);
    }
  }

  lemma Singleton(s: set<string>, x: string)
    requires |s| == 1 && x in s
    ensures s == {x}
  {
    assert |s - {x}| == 0;
  }

  lemma OneMoreRecord(records: seq<Record>, i: nat)
    requires i < |records|
    ensures forall o :: Reported(records[..i + 1], o) <==> Reported(records[..i], o) || o == records[i].outcome
    ensures forall o :: Support(records[..i + 1], o) ==
              Support(records[..i], o) + if o == records[i].outcome then {records[i].Origin()} else {}
    ensures !Reported(records[..i], records[i].outcome) ==> Support(records[..i], records[i].outcome) == {}
  {
    assert records[..i + 1] == records[..i] + [records[i]];
    forall o ensures Reported(records[..i + 1], o) <==> Reported(records[..i], o) || o == records[i].outcome {
      if o == records[i].outcome { assert records[..i + 1][i].outcome == o; }
      if Reported(records[..i], o) {
        var j :| 0 <= j < i && records[..i][j].outcome == o;
        assert records[..i + 1][j].outcome == o;
      }
    }
    forall o ensures Support(records[..i + 1], o) ==
              Support(records[..i], o) + if o == records[i].outcome then {records[i].Origin()} else {} {
      SupportStep(records, i, o);
    }
  }

  lemma SupportStep(records: seq<Record>, i: nat, o: string)
    requires i < |records|
    ensures Support(records[..i + 1], o) ==
              Support(records[..i], o) + if o == records[i].outcome then {records[i].Origin()} else {}
  {
    var s, t := records[..i], records[..i + 1];
    forall x | x in Support(s, o) ensures x in Support(t, o) {
      var j :| 0 <= j < |s| && s[j].outcome == o && s[j].Origin() == x;
      assert t[j] == s[j];
    }
    if o == records[i].outcome { assert t[i] == records[i] && t[i].Origin() in Support(t, o); }
    forall x | x in Support(t, o) ensures x in Support(s, o) || (o == records[i].outcome && x == records[i].Origin()) {
      var j :| 0 <= j < |t| && t[j].outcome == o && t[j].Origin() == x;
      if j < i { assert s[j] == t[j]; }
    }
  }

  // ----- what counts as independent -----

  /** Two records have one origin exactly when their group, first ancestor or source, whichever decides, agree. */
  lemma OneOriginExactly(r: Record, s: Record)
    ensures r.correlationGroup.Some? && s.correlationGroup.Some? ==>
              (r.Origin() == s.Origin() <==> r.correlationGroup == s.correlationGroup)
    ensures r.correlationGroup.Some? && s.correlationGroup.None? ==>
              (r.Origin() == s.Origin() <==>
               (if s.ancestry != [] then s.ancestry[0] else s.source) == r.correlationGroup.value)
    ensures r.correlationGroup.None? && s.correlationGroup.None? && r.ancestry != [] ==>
              (r.Origin() == s.Origin() <==> (if s.ancestry != [] then s.ancestry[0] else s.source) == r.ancestry[0])
    ensures r.correlationGroup.None? && s.correlationGroup.None? && r.ancestry == s.ancestry == [] ==>
              (r.Origin() == s.Origin() <==> r.source == s.source)
  {
  }

  /** Records with one group, or without one and with one first ancestor, count once, whatever their sources. */
  lemma SharedOriginCountsOnce(records: seq<Record>, outcome: string, name: string)
    requires (forall i | 0 <= i < |records| :: records[i].correlationGroup == Some(name))
          || (forall i | 0 <= i < |records| ::
                records[i].correlationGroup.None? && records[i].ancestry != [] && records[i].ancestry[0] == name)
    ensures |Support(records, outcome)| == if Reported(records, outcome) then 1 else 0
  {
    if Reported(records, outcome) {
      var i :| 0 <= i < |records| && records[i].outcome == outcome;
      assert records[i].Origin() in Support(records, outcome);
      assert Support(records, outcome) == {name};
    } else {
      assert Support(records, outcome) == {};
    }
  }

  /** Records with neither count once per source. */
  lemma SourcesCountOnce(records: seq<Record>, outcome: string)
    requires forall i | 0 <= i < |records| :: records[i].correlationGroup.None? && records[i].ancestry == []
    ensures Support(records, outcome) ==
            set i | 0 <= i < |records| && records[i].outcome == outcome :: records[i].source
  {
    forall i | 0 <= i < |records| ensures records[i].Origin() == records[i].source {
    }
  }

  /** However many sources one group has, it never outvotes another reported outcome. */
  lemma GroupCannotOutvote(records: seq<Record>, outcome: string, other: string, name: string)
    requires forall i | 0 <= i < |records| && records[i].outcome == outcome :: records[i].correlationGroup == Some(name)
    requires Reported(records, other) && other != outcome
    ensures !Wins(records, outcome)
  {
    var i :| 0 <= i < |records| && records[i].outcome == other;
    assert records[i].Origin() in Support(records, other);
    assert Support(records, outcome) <= {name};
    SizeOfSubset(Support(records, outcome), {name});
    SizeOfSubset({records[i].Origin()}, Support(records, other));
  }

  lemma SizeOfSubset(s: set<string>, t: set<string>)
    requires s <= t
    ensures |s| <= |t|
  {
    assert t == s + (t - s);
  }

  // ----- elimination -----

  datatype Verdict = Verdict(plausible: set<string>, unexplained: seq<string>, mismatches: nat)

  /** The hypothesis predicts the outcome, and some record reports it along a compatible path. */
  ghost predicate Explains(h: Hypothesis, query: string, outcome: string, records: seq<Record>) {
    && Predicts(h, query, outcome)
    && exists i | 0 <= i < |records| :: records[i].outcome == outcome && PathCompatible(h, query, records[i])
  }

  ghost predicate HasExplainer(hs: seq<Hypothesis>, id: string, query: string, outcome: string, records: seq<Record>) {
    exists i | 0 <= i < |hs| :: hs[i].id == id && Explains(hs[i], query, outcome, records)
  }

  ghost function Matching(hs: seq<Hypothesis>, plausible: set<string>, query: string, outcome: string,
                          records: seq<Record>): set<string> {
    set id | id in plausible && HasExplainer(hs, id, query, outcome, records)
  }

  ghost predicate Lexical(hs: seq<Hypothesis>, plausible: set<string>, query: string, outcome: string) {
    exists i | 0 <= i < |hs| :: hs[i].id in plausible && Predicts(hs[i], query, outcome)
  }

  function IdsOf(records: seq<Record>, outcome: string): seq<string> {
    if records == [] then []
    else
      var n := |records| - 1;
      IdsOf(records[..n], outcome) + if records[n].outcome == outcome then [records[n].id] else []
  }

  /** What the records of one query change. */
  ghost function AfterQuery(v: Verdict, hs: seq<Hypothesis>, query: string, records: seq<Record>): Verdict {
    var winner := Winner(records);
    if winner.None? then v
    else
      var matching := Matching(hs, v.plausible, query, winner.value, records);
      if matching != {} then v.(plausible := matching)
      else v.(unexplained := v.unexplained + IdsOf(records, winner.value),
              mismatches := v.mismatches + if Lexical(hs, v.plausible, query, winner.value) then 1 else 0)
  }

  function AllIds(hs: seq<Hypothesis>): set<string> {
    set i | 0 <= i < |hs| :: hs[i].id
  }

  ghost function AfterQueries(hs: seq<Hypothesis>, records: seq<Record>, queries: seq<string>): Verdict {
    if queries == [] then Verdict(AllIds(hs), [], 0)
    else
      var n := |queries| - 1;
      AfterQuery(AfterQueries(hs, records, queries[..n]), hs, queries[n], Select(records, queries[n]))
  }

  function InsertId(x: string, ids: seq<string>): seq<string> {
    if ids == [] then [x]
    else if x == ids[0] then ids
    else if StringLeq(x, ids[0]) then [x] + ids
    else [ids[0]] + InsertId(x, ids[1..])
  }

  /** The query ids in the order of an ordered map. */
  function QueryIds(records: seq<Record>): seq<string> {
    if records == [] then []
    else InsertId(records[|records| - 1].query, QueryIds(records[..|records| - 1]))
  }

  lemma {:induction false} InsertedId(x: string, ids: seq<string>)
    ensures forall y :: y in InsertId(x, ids) <==> y == x || y in ids
  {
    if ids != [] { InsertedId(x, ids[1..]); }
  }

  lemma {:induction false} QueryIdsExact(records: seq<Record>)
    ensures forall q :: q in QueryIds(records) <==> exists i | 0 <= i < |records| :: records[i].query == q
  {
    if records != [] {
      var n := |records| - 1;
      QueryIdsExact(records[..n]);
      InsertedId(records[n].query, QueryIds(records[..n]));
      assert records == records[..n] + [records[n]];
    }
  }

  datatype Outcome =
    | BestKnownHypothesis(id: string)
    | MultiplePlausibleHypotheses(ids: set<string>)
    | NovelHypothesisNeeded
    | InsufficientEvidence

  datatype Analysis = Analysis(outcome: Outcome, plausible: set<string>, unexplained: seq<string>,
                               failures: map<string, FailureMode>, duplicates: nat, mismatches: nat)

  /** The answer that the final verdict is reported as. */
  ghost predicate IsConclusion(v: Verdict, outcome: Outcome) {
    if v.unexplained != [] || v.plausible == {} then outcome == NovelHypothesisNeeded
    else if |v.plausible| == 1 then outcome.BestKnownHypothesis? && v.plausible == {outcome.id}
    else outcome == MultiplePlausibleHypotheses(v.plausible)
  }

  /** `analyze`, stated on the evidence. */
  ghost predicate IsAnalysis(hs: seq<Hypothesis>, evidence: seq<Record>, a: Analysis) {
    var asOf := LatestTime(evidence);
    var records := Kept(evidence, asOf);
    var v := AfterQueries(hs, records, QueryIds(records));
    && a.failures == Failures(evidence)
    && a.duplicates == Duplicates(evidence, asOf)
    && (if records == [] then
          a.outcome == InsufficientEvidence && a.plausible == AllIds(hs) && a.unexplained == [] && a.mismatches == 0
        else
          && Verdict(a.plausible, a.unexplained, a.mismatches) == v
          && IsConclusion(v, a.outcome))
  }

  predicate ReportsAlong(h: Hypothesis, query: string, outcome: string, records: seq<Record>) {
    exists i | 0 <= i < |records| :: records[i].outcome == outcome && PathCompatible(h, query, records[i])
  }

  /** One query of the elimination loop. */
  method ApplyQuery(v: Verdict, hs: seq<Hypothesis>, query: string, records: seq<Record>) returns (r: Verdict)
    ensures r == AfterQuery(v, hs, query, records)
  {
    r := v;
    var winner := FindWinner(records);
    if winner.None? { return; }
    var outcome := winner.value;
    var matching: set<string> := {};
    var lexical := false;
    for i := 0 to |hs|
      invariant matching == set id | id in v.plausible && HasExplainer(hs[..i], id, query, outcome, records)
      invariant lexical == Lexical(hs[..i], v.plausible, query, outcome)
    {
      OneMoreHypothesis(hs, i, v.plausible, query, outcome, records);
      if hs[i].id in v.plausible && Predicts(hs[i], query, outcome) {
        lexical := true;
        if ReportsAlong(hs[i], query, outcome, records) {
          matching := matching + {hs[i].id};
        }
      }
    }
    assert hs[..|hs|] == hs;
    if matching != {} {
      r := r.(plausible := matching);
    } else {
      var ids := [];
      for i := 0 to |records|
        invariant ids == IdsOf(records[..i], outcome)
      {
        assert records[..i + 1][..i] == records[..i];
        if records[i].outcome == outcome {
          ids := ids + [records[i].id];
        }
      }
      assert records[..|records|] == records;
      r := r.(unexplained := r.unexplained + ids, mismatches := r.mismatches + if lexical then 1 else 0);
    }
  }

  lemma OneMoreHypothesis(hs: seq<Hypothesis>, i: nat, plausible: set<string>, query: string, outcome: string,
                          records: seq<Record>)
    requires i < |hs|
    ensures forall id :: HasExplainer(hs[..i + 1], id, query, outcome, records)
                    <==> HasExplainer(hs[..i], id, query, outcome, records)
                         || (hs[i].id == id && Explains(hs[i], query, outcome, records))
    ensures Lexical(hs[..i + 1], plausible, query, outcome)
       <==> Lexical(hs[..i], plausible, query, outcome) || (hs[i].id in plausible && Predicts(hs[i], query, outcome))
  {
    var s, t := hs[..i], hs[..i + 1];
    assert forall j | 0 <= j < i :: t[j] == s[j];
    assert t[i] == hs[i];
    forall id
      ensures HasExplainer(t, id, query, outcome, records)
         <==> HasExplainer(s, id, query, outcome, records)
              || (hs[i].id == id && Explains(hs[i], query, outcome, records))
    {
      if HasExplainer(s, id, query, outcome, records) {
        var j :| 0 <= j < |s| && s[j].id == id && Explains(s[j], query, outcome, records);
        assert t[j].id == id && Explains(t[j], query, outcome, records);
      }
      if hs[i].id == id && Explains(hs[i], query, outcome, records) {
        assert t[i].id == id && Explains(t[i], query, outcome, records);
      }
    }
  }

  /** `analyze`. */
  method Analyze(hs: seq<Hypothesis>, evidence: seq<Record>) returns (a: Analysis)
    ensures IsAnalysis(hs, evidence, a)
  {
    var records, failures, duplicates := ReliableRecords(evidence);
    var all := AllIds(hs);
    if records == [] {
      return Analysis(InsufficientEvidence, all, [], failures, duplicates, 0);
    }
    var queries := QueryIds(records);
    var v := Verdict(all, [], 0);
    for i := 0 to |queries|
      invariant v == AfterQueries(hs, records, queries[..i])
    {
      assert queries[..i + 1][..i] == queries[..i];
      v := ApplyQuery(v, hs, queries[i], Select(records, queries[i]));
    }
    assert queries[..|queries|] == queries;
    var outcome := NovelHypothesisNeeded;
    if v.unexplained == [] {
      if |v.plausible| == 1 {
        var id :| id in v.plausible;
        Singleton(v.plausible, id);
        outcome := BestKnownHypothesis(id);
      } else if |v.plausible| > 1 {
        outcome := MultiplePlausibleHypotheses(v.plausible);
      }
    }
    a := Analysis(outcome, v.plausible, v.unexplained, failures, duplicates, v.mismatches);
  }

  // ----- no overcounting -----

  /**
    A record that is not newer than the latest one and whose query, origin and outcome
    already occur in a decisive record changes no conclusion, however often it is repeated.
    */
  lemma NoOvercounting(hs: seq<Hypothesis>, evidence: seq<Record>, r: Record, a: Analysis, b: Analysis)
    requires r.timestamp <= LatestTime(evidence) && r.Key() in Seen(evidence, LatestTime(evidence))
    requires IsAnalysis(hs, evidence, a) && IsAnalysis(hs, evidence + [r], b)
    ensures b.outcome == a.outcome && b.plausible == a.plausible && b.unexplained == a.unexplained
    ensures b.mismatches == a.mismatches
    ensures b.duplicates == a.duplicates + if r.Decisive(LatestTime(evidence)) then 1 else 0
  {
    var more := evidence + [r];
    assert more[..|evidence|] == evidence;
    assert LatestTime(more) == LatestTime(evidence);
    assert Kept(more, LatestTime(evidence)) == Kept(evidence, LatestTime(evidence));
    if |a.plausible| == 1 && a.outcome.BestKnownHypothesis? {
      assert a.outcome.id in b.plausible;
    }
  }

  lemma {:induction false} KeptKeysSeen(evidence: seq<Record>, asOf: nat)
    ensures forall r | r in Kept(evidence, asOf) :: r.Key() in Seen(evidence, asOf)
  {
    if evidence != [] { KeptKeysSeen(evidence[..|evidence| - 1], asOf); }
  }

  /**
    A copy of a kept record under another source, id and timestamp changes no conclusion,
    when the record names a correlation group or an ancestor.
    */
  lemma CopiesChangeNothing(hs: seq<Hypothesis>, evidence: seq<Record>, r: Record, source: string, id: string,
                            timestamp: nat, a: Analysis, b: Analysis)
    requires r in Kept(evidence, LatestTime(evidence)) && timestamp <= LatestTime(evidence)
    requires r.correlationGroup.Some? || r.ancestry != []
    requires IsAnalysis(hs, evidence, a)
    requires IsAnalysis(hs, evidence + [r.(source := source, id := id, timestamp := timestamp)], b)
    ensures b.outcome == a.outcome && b.plausible == a.plausible && b.unexplained == a.unexplained
    ensures var copied := evidence + [r.(source := source, id := id, timestamp := timestamp)];
            Kept(copied, LatestTime(copied)) == Kept(evidence, LatestTime(evidence))
  {
    var copy := r.(source := source, id := id, timestamp := timestamp);
    KeptKeysSeen(evidence, LatestTime(evidence));
    assert copy.Key() == r.Key();
    NoOvercounting(hs, evidence, copy, a, b);
    assert (evidence + [copy])[..|evidence|] == evidence;
    assert LatestTime(evidence + [copy]) == LatestTime(evidence);
  }

  // ----- who survives -----

  /** The elimination never empties the set of plausible hypotheses, and only ever shrinks it. */
  lemma {:induction false} PlausibleShrinks(hs: seq<Hypothesis>, records: seq<Record>, queries: seq<string>, n: nat)
    requires n <= |queries|
    ensures AfterQueries(hs, records, queries).plausible <= AfterQueries(hs, records, queries[..n]).plausible
    ensures AfterQueries(hs, records, queries[..n]).unexplained <= AfterQueries(hs, records, queries).unexplained
    ensures hs != [] ==> AfterQueries(hs, records, queries).plausible != {}
    decreases |queries|
  {
    if queries == [] {
      assert queries[..n] == queries;
      if hs != [] { assert hs[0].id in AllIds(hs); }
    } else {
      var m := |queries| - 1;
      if n <= m {
        PlausibleShrinks(hs, records, queries[..m], n);
        assert queries[..m][..n] == queries[..n];
      } else {
        PlausibleShrinks(hs, records, queries[..m], m);
        assert queries[..n] == queries;
      }
    }
  }

  /** Some hypothesis always remains. */
  lemma NeverEmpty(hs: seq<Hypothesis>, evidence: seq<Record>, a: Analysis)
    requires hs != [] && IsAnalysis(hs, evidence, a)
    ensures a.plausible != {} && a.plausible <= AllIds(hs)
  {
    var records := Kept(evidence, LatestTime(evidence));
    PlausibleShrinks(hs, records, QueryIds(records), 0);
    assert hs[0].id in AllIds(hs);
  }

  /** The query has a winner and some then plausible hypothesis explained it. */
  ghost predicate Explained(hs: seq<Hypothesis>, records: seq<Record>, queries: seq<string>, n: nat)
    requires n < |queries|
  {
    var qr := Select(records, queries[n]);
    && Winner(qr).Some?
    && Matching(hs, AfterQueries(hs, records, queries[..n]).plausible, queries[n], Winner(qr).value, qr) != {}
  }

  ghost predicate ExplainsQuery(hs: seq<Hypothesis>, id: string, records: seq<Record>, query: string) {
    var qr := Select(records, query);
    Winner(qr).Some? && HasExplainer(hs, id, query, Winner(qr).value, qr)
  }

  /** The survivors are exactly the hypotheses that explain every explained query. */
  lemma {:induction false} SurvivorsExact(hs: seq<Hypothesis>, records: seq<Record>, queries: seq<string>, id: string)
    ensures id in AfterQueries(hs, records, queries).plausible
       <==> id in AllIds(hs)
            && forall n | 0 <= n < |queries| && Explained(hs, records, queries, n) ::
                 ExplainsQuery(hs, id, records, queries[n])
  {
    if queries != [] {
      var m := |queries| - 1;
      SurvivorsExact(hs, records, queries[..m], id);
      assert forall n | 0 <= n < m :: queries[..m][n] == queries[n] && queries[..m][..n] == queries[..n];
      assert forall n | 0 <= n < m :: Explained(hs, records, queries[..m], n) == Explained(hs, records, queries, n);
      SurvivalStep(hs, records, queries, id);
    }
  }

  lemma SurvivalStep(hs: seq<Hypothesis>, records: seq<Record>, queries: seq<string>, id: string)
    requires queries != []
    ensures id in AfterQueries(hs, records, queries).plausible
       <==> && id in AfterQueries(hs, records, queries[..|queries| - 1]).plausible
            && (Explained(hs, records, queries, |queries| - 1) ==>
                  ExplainsQuery(hs, id, records, queries[|queries| - 1]))
  {
  }

  lemma {:induction false} IdsOfReported(records: seq<Record>, outcome: string)
    requires Reported(records, outcome)
    ensures IdsOf(records, outcome) != []
  {
    var n := |records| - 1;
    if records[n].outcome != outcome {
      var i :| 0 <= i < |records| && records[i].outcome == outcome;
      assert records[..n][i].outcome == outcome;
      IdsOfReported(records[..n], outcome);
    }
  }

  /** When nothing is left unexplained, every query with a winner was explained. */
  lemma {:induction false} NothingUnexplained(hs: seq<Hypothesis>, records: seq<Record>, queries: seq<string>, n: nat)
    requires n < |queries| && AfterQueries(hs, records, queries).unexplained == []
    requires Winner(Select(records, queries[n])).Some?
    ensures Explained(hs, records, queries, n)
  {
    var qr := Select(records, queries[n]);
    PlausibleShrinks(hs, records, queries, n + 1);
    assert queries[..n + 1][..n] == queries[..n];
    IdsOfReported(qr, Winner(qr).value);
    assert AfterQueries(hs, records, queries[..n + 1])
        == AfterQuery(AfterQueries(hs, records, queries[..n]), hs, queries[n], qr);
  }

  ghost predicate ExplainsAllWinners(hs: seq<Hypothesis>, id: string, records: seq<Record>) {
    forall q | Winner(Select(records, q)).Some? :: ExplainsQuery(hs, id, records, q)
  }

  lemma {:induction false} SelectEmpty(records: seq<Record>, q: string)
    requires forall i | 0 <= i < |records| :: records[i].query != q
    ensures Select(records, q) == []
  {
    if records != [] { SelectEmpty(records[..|records| - 1], q); }
  }

  lemma QueryOfWinner(records: seq<Record>, q: string)
    requires Winner(Select(records, q)).Some?
    ensures q in QueryIds(records)
  {
    QueryIdsExact(records);
    if forall i | 0 <= i < |records| :: records[i].query != q {
      SelectEmpty(records, q);
    }
  }

  /**
    With decisive evidence and nothing left unexplained, the plausible hypotheses are
    exactly those that predict, along a compatible causal path, the winning outcome of
    every query that has one; the order of the queries does not matter.
    */
  lemma ConclusiveSurvivors(hs: seq<Hypothesis>, evidence: seq<Record>, a: Analysis, id: string)
    requires IsAnalysis(hs, evidence, a) && a.unexplained == []
    requires Kept(evidence, LatestTime(evidence)) != []
    ensures id in a.plausible
       <==> id in AllIds(hs) && ExplainsAllWinners(hs, id, Kept(evidence, LatestTime(evidence)))
  {
    var records := Kept(evidence, LatestTime(evidence));
    var queries := QueryIds(records);
    SurvivorsExact(hs, records, queries, id);
    forall q | Winner(Select(records, q)).Some? ensures q in queries {
      QueryOfWinner(records, q);
    }
    forall n | 0 <= n < |queries| && Winner(Select(records, queries[n])).Some?
      ensures Explained(hs, records, queries, n)
    {
      NothingUnexplained(hs, records, queries, n);
    }
  }

  // ----- what the answer means -----

  /** The hypotheses that explain the winner of every query. */
  ghost function FullExplainers(hs: seq<Hypothesis>, records: seq<Record>): set<string> {
    set id | id in AllIds(hs) && ExplainsAllWinners(hs, id, records)
  }

  /** A hypothesis that explains every winner survives every query, and leaves nothing unexplained. */
  lemma {:induction false} ExplainersSurvive(hs: seq<Hypothesis>, records: seq<Record>, queries: seq<string>,
                                             id: string)
    requires id in FullExplainers(hs, records)
    ensures id in AfterQueries(hs, records, queries).plausible
    ensures AfterQueries(hs, records, queries).unexplained == []
  {
    if queries != [] {
      var m := |queries| - 1;
      ExplainersSurvive(hs, records, queries[..m], id);
      var qr := Select(records, queries[m]);
      if Winner(qr).Some? {
        assert ExplainsQuery(hs, id, records, queries[m]);
        assert id in Matching(hs, AfterQueries(hs, records, queries[..m]).plausible, queries[m], Winner(qr).value, qr);
      }
    }
  }

  /**
    The answer on decisive evidence, without reference to the elimination or the order of
    the queries: one best hypothesis, several, or a new one needed, exactly as one, several
    or no hypotheses explain the winners of all queries.
    */
  lemma OutcomeExactly(hs: seq<Hypothesis>, evidence: seq<Record>, a: Analysis)
    requires IsAnalysis(hs, evidence, a)
    ensures var records := Kept(evidence, LatestTime(evidence));
            var full := FullExplainers(hs, records);
            && (a.outcome == InsufficientEvidence <==> records == [])
            && (records != [] ==>
                  && (a.outcome == NovelHypothesisNeeded <==> full == {})
                  && (forall id :: a.outcome == BestKnownHypothesis(id) <==> full == {id})
                  && (forall ids :: a.outcome == MultiplePlausibleHypotheses(ids) <==> full == ids && |ids| >= 2)
                  && (hs != [] ==> (a.unexplained == [] <==> full != {})))
  {
    var records := Kept(evidence, LatestTime(evidence));
    if records != [] {
      var full := FullExplainers(hs, records);
      if id :| id in full { ExplainersSurvive(hs, records, QueryIds(records), id); }
      if a.unexplained == [] {
        forall id ensures id in a.plausible <==> id in full { ConclusiveSurvivors(hs, evidence, a, id); }
        assert a.plausible == full;
      }
      if hs != [] { NeverEmpty(hs, evidence, a); }
      SizeOfOne(full);
    }
  }

  lemma SizeOfOne(s: set<string>)
    ensures |s| == 1 <==> exists x :: s == {x}
    ensures |s| == 0 <==> s == {}
  {
    if |s| == 1 {
      var x :| x in s;
      Singleton(s, x);
    }
  }

  /** A query with a winner that no then plausible hypothesis explains, and the id of a record of that winner. */
  ghost predicate LeftOver(hs: seq<Hypothesis>, records: seq<Record>, queries: seq<string>, n: nat, id: string) {
    && n < |queries| && Winner(Select(records, queries[n])).Some? && !Explained(hs, records, queries, n)
    && id in IdsOf(Select(records, queries[n]), Winner(Select(records, queries[n])).value)
  }

  /** The unexplained records are those of the winners that were not explained. */
  lemma {:induction false} UnexplainedExactly(hs: seq<Hypothesis>, records: seq<Record>, queries: seq<string>,
                                              id: string)
    ensures id in AfterQueries(hs, records, queries).unexplained <==>
            exists n: nat :: LeftOver(hs, records, queries, n, id)
  {
    if queries != [] {
      var m := |queries| - 1;
      var before := queries[..m];
      UnexplainedExactly(hs, records, before, id);
      forall n: nat | n < m ensures LeftOver(hs, records, before, n, id) <==> LeftOver(hs, records, queries, n, id) {
        assert before[n] == queries[n] && before[..n] == queries[..n];
      }
      LastLeftOver(hs, records, queries, id);
      if id in AfterQueries(hs, records, before).unexplained {
        var n: nat :| LeftOver(hs, records, before, n, id);
        assert LeftOver(hs, records, queries, n, id);
      }
      if n: nat :| LeftOver(hs, records, queries, n, id) {
        assert n == m || LeftOver(hs, records, before, n, id);
      }
    }
  }

  lemma LastLeftOver(hs: seq<Hypothesis>, records: seq<Record>, queries: seq<string>, id: string)
    requires queries != []
    ensures id in AfterQueries(hs, records, queries).unexplained <==>
            || id in AfterQueries(hs, records, queries[..|queries| - 1]).unexplained
            || LeftOver(hs, records, queries, |queries| - 1, id)
  {
  }

  /** The records of a query and the ids of an outcome are all of them, and nothing else. */
  lemma {:induction false} SelectedExactly(records: seq<Record>, query: string, outcome: string)
    ensures forall r :: r in Select(records, query) <==> r in records && r.query == query
    ensures forall id :: id in IdsOf(records, outcome) <==>
                         exists r :: r in records && r.outcome == outcome && r.id == id
  {
    if records != [] {
      var n := |records| - 1;
      SelectedExactly(records[..n], query, outcome);
      assert records == records[..n] + [records[n]];
      forall id
        ensures id in IdsOf(records, outcome) <==> exists r :: r in records && r.outcome == outcome && r.id == id
      {
        if r :| r in records && r.outcome == outcome && r.id == id {
          assert r in records[..n] || r == records[n];
        }
        if id in IdsOf(records[..n], outcome) {
          var r :| r in records[..n] && r.outcome == outcome && r.id == id;
          assert r in records;
        }
        if records[n].outcome == outcome { assert records[n] in records; }
      }
    }
  }

  predicate StrictlyOrdered(ids: seq<string>) {
    forall i, j | 0 <= i < j < |ids| :: ids[i] != ids[j] && StringLeq(ids[i], ids[j])
  }

  /** Queries are looked at in the order of their names, each once. */
  lemma {:induction false} QueriesOrdered(records: seq<Record>)
    ensures StrictlyOrdered(QueryIds(records))
  {
    if records != [] {
      QueriesOrdered(records[..|records| - 1]);
      InsertOrdered(records[|records| - 1].query, QueryIds(records[..|records| - 1]));
    }
  }

  lemma {:induction false} InsertOrdered(x: string, ids: seq<string>)
    requires StrictlyOrdered(ids)
    ensures StrictlyOrdered(InsertId(x, ids))
  {
    if ids != [] && x != ids[0] {
      StringLeqTotal(x, ids[0]);
      var tail := ids[1..];
      if StringLeq(x, ids[0]) {
        forall j | 0 < j < |ids| ensures StringLeq(x, ids[j]) && x != ids[j] {
          StringLeqTransitive(x, ids[0], ids[j]);
          StringLeqTotal(ids[0], ids[j]);
        }
      } else {
        InsertOrdered(x, tail);
        InsertedId(x, tail);
        var r := InsertId(x, tail);
        forall j | 0 <= j < |r| ensures StringLeq(ids[0], r[j]) && ids[0] != r[j] {
          assert r[j] in r;
          if r[j] != x {
            var k :| 0 <= k < |tail| && tail[k] == r[j];
            assert ids[k + 1] == r[j];
          }
        }
      }
    }
  }

  // ----- causal paths -----

  /** A path is compatible when it begins with the expected one; going on after it keeps it so. */
  lemma PathsExtend(h: Hypothesis, query: string, r: Record, more: seq<string>)
    requires query in h.causalPaths
    ensures PathCompatible(h, query, r.(causalPath := h.causalPaths[query] + more))
    ensures PathCompatible(h, query, r) ==> PathCompatible(h, query, r.(causalPath := r.causalPath + more))
    ensures h.causalPaths[query] != [] ==> !PathCompatible(h, query, r.(causalPath := []))
  {
    assert h.causalPaths[query] <= h.causalPaths[query] + more;
  }

  /** A hypothesis that expects no path is not supported by evidence that took one. */
  lemma UnexpectedPath(h: Hypothesis, query: string, outcome: string, records: seq<Record>)
    requires query !in h.causalPaths && forall r | r in records && r.outcome == outcome :: r.causalPath != []
    ensures !Explains(h, query, outcome, records)
  {
    assert forall i | 0 <= i < |records| :: records[i] in records;
  }

  ghost predicate Pathless(hs: seq<Hypothesis>, records: seq<Record>) {
    (forall h | h in hs :: h.causalPaths == map[]) && forall r | r in records :: r.causalPath == []
  }

  /** Where no causal paths are given, no query is a causal mismatch: predicting the winner is enough. */
  lemma {:induction false} NoMismatchWithoutPaths(hs: seq<Hypothesis>, records: seq<Record>, queries: seq<string>)
    requires Pathless(hs, records)
    ensures AfterQueries(hs, records, queries).mismatches == 0
  {
    if queries != [] {
      var m := |queries| - 1;
      var v, qr := AfterQueries(hs, records, queries[..m]), Select(records, queries[m]);
      NoMismatchWithoutPaths(hs, records, queries[..m]);
      SelectedExactly(records, queries[m], "");
      if Winner(qr).Some? && Lexical(hs, v.plausible, queries[m], Winner(qr).value) {
        PredictionExplains(hs, v.plausible, queries[m], Winner(qr).value, qr);
      }
    }
  }

  lemma PredictionExplains(hs: seq<Hypothesis>, plausible: set<string>, query: string, outcome: string,
                           records: seq<Record>)
    requires Pathless(hs, records) && Reported(records, outcome) && Lexical(hs, plausible, query, outcome)
    ensures Matching(hs, plausible, query, outcome, records) != {}
  {
    var i :| 0 <= i < |hs| && hs[i].id in plausible && Predicts(hs[i], query, outcome);
    var j :| 0 <= j < |records| && records[j].outcome == outcome;
    assert hs[i] in hs && records[j] in records;
    assert PathCompatible(hs[i], query, records[j]);
    assert Explains(hs[i], query, outcome, records) && HasExplainer(hs, hs[i].id, query, outcome, records);
    assert hs[i].id in Matching(hs, plausible, query, outcome, records);
  }

  /** Only a query that leaves records unexplained can be a causal mismatch. */
  lemma {:induction false} MismatchesLeaveRecords(hs: seq<Hypothesis>, records: seq<Record>, queries: seq<string>)
    ensures AfterQueries(hs, records, queries).mismatches <= |AfterQueries(hs, records, queries).unexplained|
  {
    if queries != [] {
      var m := |queries| - 1;
      MismatchesLeaveRecords(hs, records, queries[..m]);
      var qr := Select(records, queries[m]);
      if Winner(qr).Some? { IdsOfReported(qr, Winner(qr).value); }
    }
  }

  // ----- which keys are kept -----

  /** Where the first decisive record with a key stands, or the number of records. */
  function FirstWithKey(evidence: seq<Record>, key: (string, string, string), asOf: nat): (n: nat)
    ensures n <= |evidence|
    ensures n < |evidence| ==> evidence[n].Decisive(asOf) && evidence[n].Key() == key
    ensures forall j | 0 <= j < n :: !(evidence[j].Decisive(asOf) && evidence[j].Key() == key)
  {
    if evidence == [] || (evidence[0].Decisive(asOf) && evidence[0].Key() == key) then 0
    else 1 + FirstWithKey(evidence[1..], key, asOf)
  }

  ghost predicate Represented(records: seq<Record>, key: (string, string, string)) {
    exists r :: r in records && r.Key() == key
  }

  lemma {:induction false} SeenExactly(evidence: seq<Record>, key: (string, string, string), asOf: nat)
    ensures key in Seen(evidence, asOf) <==> FirstWithKey(evidence, key, asOf) < |evidence|
  {
    if evidence != [] {
      var n := |evidence| - 1;
      var before := evidence[..n];
      SeenExactly(before, key, asOf);
      assert forall j | 0 <= j < n :: before[j] == evidence[j];
      assert FirstWithKey(before, key, asOf) < n ==> evidence[FirstWithKey(before, key, asOf)].Key() == key;
    }
  }

  /**
    Which keys reach the analysis: a key is kept if and only if the first decisive record
    with it comes from a source that did not fail, and then by that record alone.
    */
  lemma {:induction false} KeptExactly(evidence: seq<Record>, key: (string, string, string), asOf: nat)
    ensures var n := FirstWithKey(evidence, key, asOf);
            Represented(Kept(evidence, asOf), key) <==> n < |evidence| && evidence[n].failureMode.None?
    ensures forall r | r in Kept(evidence, asOf) && r.Key() == key ::
              FirstWithKey(evidence, key, asOf) < |evidence| && r == evidence[FirstWithKey(evidence, key, asOf)]
  {
    if evidence != [] {
      var n := |evidence| - 1;
      var before, last := evidence[..n], evidence[n];
      KeptExactly(before, key, asOf);
      FirstOfExtended(before, last, key, asOf);
      assert evidence == before + [last];
      SeenExactly(before, key, asOf);
      var added := if IsFirst(before, last, asOf) && last.failureMode.None? then [last] else [];
      assert Kept(evidence, asOf) == Kept(before, asOf) + added;
      assert forall r :: r in Kept(evidence, asOf) <==> r in Kept(before, asOf) || r in added;
    }
  }

  lemma {:induction false} FirstOfExtended(before: seq<Record>, last: Record, key: (string, string, string), asOf: nat)
    ensures var n := FirstWithKey(before, key, asOf);
            FirstWithKey(before + [last], key, asOf) ==
            if n < |before| || (last.Decisive(asOf) && last.Key() == key) then n else n + 1
  {
    var all := before + [last];
    var n, k := FirstWithKey(before, key, asOf), FirstWithKey(all, key, asOf);
    assert all[|before|] == last && forall j | 0 <= j < |before| :: all[j] == before[j];
    if n < |before| { assert !(n < k); }
  }

  /** The record says of the same query, from the same origin, the same as r. */
  predicate Repeats(r: Record, earlier: Record) {
    r.query == earlier.query && r.outcome == earlier.outcome && r.Origin() == earlier.Origin()
  }

  ghost predicate IsRepeated(evidence: seq<Record>, r: Record, asOf: nat) {
    exists i | 0 <= i < |evidence| :: evidence[i].Decisive(asOf) && Repeats(r, evidence[i])
  }

  /**
    A decisive record from a source that did not fail counts unless a decisive one before it
    says the same; one from the same origin that says something else does not stop it.
    */
  lemma {:induction false} NewEvidenceCounts(evidence: seq<Record>, r: Record, asOf: nat)
    requires r.Decisive(asOf) && r.failureMode.None?
    ensures Kept(evidence + [r], asOf) == Kept(evidence, asOf) + if IsRepeated(evidence, r, asOf) then [] else [r]
    ensures Duplicates(evidence + [r], asOf) ==
            Duplicates(evidence, asOf) + if IsRepeated(evidence, r, asOf) then 1 else 0
  {
    assert (evidence + [r])[..|evidence|] == evidence;
    SeenExactly(evidence, r.Key(), asOf);
    var n := FirstWithKey(evidence, r.Key(), asOf);
    if n < |evidence| { assert evidence[n].Decisive(asOf) && Repeats(r, evidence[n]); }
  }

  /** Everything kept is part of the evidence. */
  lemma {:induction false} KeptMembers(evidence: seq<Record>, asOf: nat)
    ensures forall r | r in Kept(evidence, asOf) :: r in evidence
  {
    if evidence != [] {
      KeptMembers(evidence[..|evidence| - 1], asOf);
      assert evidence == evidence[..|evidence| - 1] + [evidence[|evidence| - 1]];
    }
  }

  /**
    A sound report can be lost: when the first decisive record with its key comes from a
    failed source, nothing with that key is kept, and here no evidence is left at all.
    */
  lemma FailedRecordHidesSound(hs: seq<Hypothesis>, a: Analysis)
    requires var failed := Record("r1", "q", "yes", 1, None, "s", 100, 100, [], None, Some(ClockDrift), []);
             IsAnalysis(hs, [failed, failed.(id := "r2", failureMode := None)], a)
    ensures a.outcome == InsufficientEvidence && a.duplicates == 1
  {
    var failed := Record("r1", "q", "yes", 1, None, "s", 100, 100, [], None, Some(ClockDrift), []);
    var evidence := [failed, failed.(id := "r2", failureMode := None)];
    var kept := Kept(evidence, 1);
    assert kept != [] ==> kept[0] in kept;
    LatestOfTwo(evidence, 1);
    assert failed.Decisive(1) && FirstWithKey(evidence, failed.Key(), 1) == 0;
    KeptExactly(evidence, failed.Key(), 1);
    KeptMembers(evidence, 1);
    assert evidence[..1] == [failed] && [failed][..0] == [];
    assert Seen([], 1) == {} && Duplicates([], 1) == 0;
    assert Seen([failed], 1) == {failed.Key()} && Duplicates([failed], 1) == 0;
  }

  lemma LatestOfTwo(evidence: seq<Record>, t: nat)
    requires |evidence| == 2 && evidence[0].timestamp == evidence[1].timestamp == t > 0
    ensures LatestTime(evidence) == t
  {
    assert evidence[..1][..0] == [] && LatestTime([]) == 0;
    assert LatestTime(evidence[..1]) == t;
  }
}
